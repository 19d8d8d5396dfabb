/** The comment-plan artifact and the selection it may record:
  * xtask/src/advisory_artifacts.rs. */
module CommentPlan {
  import opened Wrappers
  import opened Text
  import opened Lists
  import opened Cards
  import opened RustText
  import opened Shape
  import opened TargetFeature
  import RepairQueue

  // ---------- decoded artifacts ----------

  datatype Reason =
    | OutsideChangedHunk | ClassNotEligible | OperationFamilyUnknown | DeclarationNotSelected
    | ConfidenceBelowThreshold | PriorityConfidenceBelowThreshold | CoveredBySibling | CoveredBySpecificCard
    | MaximumReached | NotSelectedByPolicy | GroupedWithEquivalent

  datatype Code =
    | OutsideHunk | HumanDeepReviewOnly | LowerRelevance | CoveredBySelectedFamilyObligation
    | CoveredBySpecificOperationCard | BudgetExhausted | NotSelected | GroupedRepetition

  /** A planned comment. The flag says whether its field-by-field checks pass. */
  datatype Comment = Comment(cardId: string, path: string, line: nat, changedLine: bool, body: string,
                             repair: RepairQueue.Projection, fieldsOk: bool)

  /** A card that was not selected; a reason or code outside its vocabulary is None. */
  datatype Entry = Entry(cardId: string, path: string, line: nat, changedLine: bool,
                         reason: Option<Reason>, code: Option<Code>, repair: RepairQueue.Projection, fieldsOk: bool)

  /** The decoded plan; an absent not_selected array is empty. The flags say whether the
    * header, the statement made when there are no cards, and the summary texts are right. */
  datatype Plan = Plan(headerOk: bool, comments: seq<Comment>, notSelected: seq<Entry>, noGapsOk: bool,
                       selectedCount: nat, notSelectedCount: nat, budget: nat, summaryOk: bool)

  /** What the verifier wants of a comment's body: the passages that a comment on a card has to
    * contain besides the next action, those that state the boundary among them, and whether a
    * body mentions known cards only and makes no forbidden claim. */
  datatype Wording = Wording(passages: string -> seq<string>, sound: string -> bool)

  /** The cards, their repair-queue projections and the card count of cards.json. */
  datatype Manifest = Manifest(cards: Projections, repairs: RepairQueue.Index, cardCount: nat, wording: Wording)

  const REVIEW_BUDGET := 3
  const BODY_WORD_LIMIT := 220
  const NEXT_ACTION := "Next action: "

  // ---------- why a card is not selected ----------

  predicate HumanReviewOnly(card: Card) {
    !SurfacingDisposition(card).InlineCandidate?
  }

  /** A changed inline candidate of the same owner in the same file. */
  predicate Specific(owner: Card, cards: Projections, changed: set<string>, id: string)
    requires id in cards
  {
    id != owner.id && id in changed && SurfacingDisposition(cards[id]).InlineCandidate? &&
    cards[id].path == owner.path && cards[id].owner == owner.owner
  }

  predicate CoveredBySpecific(card: Card, cards: Projections, changed: set<string>) {
    HumanReviewOnly(card) && !AllWhitespace(card.owner) &&
    exists id :: id in cards && Specific(card, cards, changed, id)
  }

  predicate OwnerAmbiguous(card: Card, cards: Projections, changed: set<string>) {
    card.owner == "unknown" && HumanReviewOnly(card) &&
    exists id :: id in cards && Specific(card, cards, changed, id)
  }

  /** What the reasons are judged against. */
  datatype Selection = Selection(planned: nat, budgetKeys: set<string>, changed: set<string>, omitted: set<string>)

  function PlainReason(card: Card, sel: Selection, changedLine: bool): Reason {
    if !changedLine then OutsideChangedHunk
    else if !ClassIsActionable(card.className) then ClassNotEligible
    else if SurfacingDisposition(card).UnsafeDeclaration? then DeclarationNotSelected
    else if SurfacingDisposition(card).FallbackUnsafeSite? then OperationFamilyUnknown
    else if LowConfidence(card) then ConfidenceBelowThreshold
    else if !Prominent(card) then PriorityConfidenceBelowThreshold
    else if CommentBudgetKey(card) in sel.budgetKeys then CoveredBySibling
    else if sel.planned >= 3 then MaximumReached
    else NotSelectedByPolicy
  }

  function PlainCode(card: Card, sel: Selection, changedLine: bool): Code {
    if !changedLine then OutsideHunk
    else if !ClassIsActionable(card.className) || HumanReviewOnly(card) then HumanDeepReviewOnly
    else if LowConfidence(card) || !Prominent(card) then LowerRelevance
    else if CommentBudgetKey(card) in sel.budgetKeys then CoveredBySelectedFamilyObligation
    else if sel.planned >= 3 then BudgetExhausted
    else NotSelected
  }

  function ExpectedReason(card: Card, cards: Projections, sel: Selection, changedLine: bool): Reason {
    if card.id in sel.omitted then GroupedWithEquivalent
    else if CoveredBySpecific(card, cards, sel.changed) then CoveredBySpecificCard
    else PlainReason(card, sel, changedLine)
  }

  function ExpectedCode(card: Card, cards: Projections, sel: Selection, changedLine: bool): Code {
    if card.id in sel.omitted then GroupedRepetition
    else if CoveredBySpecific(card, cards, sel.changed) then CoveredBySpecificOperationCard
    else PlainCode(card, sel, changedLine)
  }

  /** The reason and its code are the expected pair or, when the owner's name is the
    * placeholder of a missing one, the pair expected without looking at owners. */
  predicate PairOk(reason: Reason, code: Code, card: Card, cards: Projections, sel: Selection, changedLine: bool) {
    (reason == ExpectedReason(card, cards, sel, changedLine) && code == ExpectedCode(card, cards, sel, changedLine)) ||
    (OwnerAmbiguous(card, cards, sel.changed) && reason == PlainReason(card, sel, changedLine) &&
     code == PlainCode(card, sel, changedLine))
  }

  function CodeOf(reason: Reason): Code {
    match reason
    case OutsideChangedHunk => OutsideHunk
    case ClassNotEligible | OperationFamilyUnknown | DeclarationNotSelected => HumanDeepReviewOnly
    case ConfidenceBelowThreshold | PriorityConfidenceBelowThreshold => LowerRelevance
    case CoveredBySibling => CoveredBySelectedFamilyObligation
    case CoveredBySpecificCard => CoveredBySpecificOperationCard
    case MaximumReached => BudgetExhausted
    case NotSelectedByPolicy => NotSelected
    case GroupedWithEquivalent => GroupedRepetition
  }

  /** The two decision chains agree: an accepted reason determines its code. */
  lemma ReasonDeterminesCode(reason: Reason, code: Code, card: Card, cards: Projections, sel: Selection, changed: bool)
    requires PairOk(reason, code, card, cards, sel, changed)
    ensures code == CodeOf(reason)
  {
    hide CoveredBySpecific, OwnerAmbiguous, ClassIsActionable, CommentBudgetKey, LowConfidence, Prominent;
  }

  // ---------- what an acceptable plan is ----------

  function CommentId(c: Comment): string { c.cardId }

  function EntryId(e: Entry): string { e.cardId }

  function Location(c: Comment): (string, nat) { (c.path, c.line) }

  function BudgetKeyIn(cards: Projections): Comment -> string {
    (c: Comment) => if c.cardId in cards then CommentBudgetKey(cards[c.cardId]) else ""
  }

  /** A card that may be planned: eligible, and of a class that is not held back. */
  predicate Selectable(card: Card) {
    Eligible(card) && card.className !in ["static_unknown", "baseline_known", "suppressed"]
  }

  predicate Contains(text: string, needle: string) {
    Find(text, needle).Some?
  }

  /** A body within the word limit that holds the card's next action and is worded as it should. */
  predicate BodyOk(m: Manifest, card: Card, body: string) {
    m.wording.sound(body) && |Words(body)| <= BODY_WORD_LIMIT && Contains(body, card.nextAction)
  }

  /** The body spells out what the card says. */
  predicate Projects(m: Manifest, id: string, body: string)
    requires id in m.cards
  {
    && Contains(body, NEXT_ACTION + m.cards[id].nextAction)
    && forall i :: 0 <= i < |m.wording.passages(id)| ==> Contains(body, m.wording.passages(id)[i])
  }

  predicate BodiesProject(m: Manifest, cs: seq<Comment>) {
    forall i :: 0 <= i < |cs| ==> cs[i].cardId in m.cards && Projects(m, cs[i].cardId, cs[i].body)
  }

  predicate CommentOk(m: Manifest, c: Comment) {
    && c.cardId in m.cards
    && var card := m.cards[c.cardId];
    && !AllWhitespace(c.path) && c.line != 0 && c.changedLine
    && c.path == card.path && c.line == card.line
    && Selectable(card)
    && c.cardId in m.repairs && c.repair == m.repairs[c.cardId]
    && c.fieldsOk && BodyOk(m, card, c.body)
  }

  function ChangedIds(plan: Plan): set<string> {
    Elements(Map(CommentId, plan.comments)) + (set e | e in plan.notSelected && e.changedLine :: e.cardId)
  }

  function SelectionOf(m: Manifest, plan: Plan): Selection {
    Selection(|plan.comments|, Elements(Map(BudgetKeyIn(m.cards), plan.comments)), ChangedIds(plan), Omitted(m.cards))
  }

  predicate EntryOk(m: Manifest, sel: Selection, e: Entry) {
    && e.cardId in m.cards
    && var card := m.cards[e.cardId];
    && !AllWhitespace(e.path) && e.line != 0
    && e.path == card.path && e.line == card.line
    && e.reason.Some? && e.code.Some?
    && PairOk(e.reason.value, e.code.value, card, m.cards, sel, e.changedLine)
    && e.cardId in m.repairs && e.repair == m.repairs[e.cardId]
    && e.fieldsOk
  }

  ghost predicate CommentsOk(m: Manifest, cs: seq<Comment>) {
    && (forall i :: 0 <= i < |cs| ==> CommentOk(m, cs[i]))
    && NoDup(Map(CommentId, cs)) && NoDup(Map(Location, cs)) && NoDup(Map(BudgetKeyIn(m.cards), cs))
  }

  ghost predicate EntriesOk(m: Manifest, plan: Plan) {
    && (forall i :: 0 <= i < |plan.notSelected| ==> EntryOk(m, SelectionOf(m, plan), plan.notSelected[i]))
    && NoDup(Map(EntryId, plan.notSelected))
    && (forall id :: id in Map(EntryId, plan.notSelected) ==> id !in Map(CommentId, plan.comments))
  }

  ghost predicate Covered(m: Manifest, plan: Plan) {
    forall id :: id in m.cards ==> id in Map(CommentId, plan.comments) || id in Map(EntryId, plan.notSelected)
  }

  predicate SummaryOk(m: Manifest, plan: Plan) {
    && (m.cardCount == 0 ==> plan.noGapsOk)
    && plan.selectedCount == |plan.comments| && plan.notSelectedCount == |plan.notSelected|
    && plan.budget == REVIEW_BUDGET && plan.summaryOk
  }

  ghost predicate Acceptable(m: Manifest, plan: Plan) {
    && plan.headerOk && |plan.comments| <= 3
    && CommentsOk(m, plan.comments) && EntriesOk(m, plan) && Covered(m, plan)
    && BodiesProject(m, plan.comments) && SummaryOk(m, plan)
  }

  // ---------- the verifier ----------

  datatype PlanError =
    | BadHeader | TooManyComments | UnknownCard | RepeatedComment | BlankPath | LineNotOneBased
    | NotOnChangedLine | ProjectionDiffers | RepeatedLocation | BadFields | NotEligible | ClassNotSelectable
    | RepeatedBudgetKey | RepairDiffers | EntryRepeatsComment | RepeatedEntry | UnknownReason | WrongReason
    | UnaccountedCard | BadNoGaps | BadSummary | BadWording | TooManyWords | NoNextAction | BodyDiffers

  lemma BadCommentRejects(m: Manifest, plan: Plan, i: nat)
    requires i < |plan.comments| && !CommentOk(m, plan.comments[i])
    ensures !Acceptable(m, plan)
  {
    hide CommentOk, NoDup, EntriesOk, Covered, SummaryOk;
  }

  lemma RepeatRejects(m: Manifest, plan: Plan)
    requires !NoDup(Map(CommentId, plan.comments)) || !NoDup(Map(Location, plan.comments)) ||
             !NoDup(Map(BudgetKeyIn(m.cards), plan.comments)) || !NoDup(Map(EntryId, plan.notSelected))
    ensures !Acceptable(m, plan)
  {
    hide CommentOk, NoDup, EntryOk, Covered, SummaryOk, Map;
  }

  lemma BadEntryRejects(m: Manifest, plan: Plan, i: nat)
    requires i < |plan.notSelected|
    requires !EntryOk(m, SelectionOf(m, plan), plan.notSelected[i]) ||
             plan.notSelected[i].cardId in Map(CommentId, plan.comments)
    ensures !Acceptable(m, plan)
  {
    hide CommentsOk, EntryOk, NoDup, Covered, SummaryOk, SelectionOf;
    assert Map(EntryId, plan.notSelected)[i] == plan.notSelected[i].cardId;
  }

  /** What the first loop has established about the first n comments. */
  ghost predicate CommentsRead(m: Manifest, cs: seq<Comment>, n: nat, ids: set<string>,
                               locations: set<(string, nat)>, keys: set<string>) {
    && n <= |cs| && (forall i :: 0 <= i < n ==> CommentOk(m, cs[i]))
    && NoDup(Map(CommentId, cs)[..n]) && ids == Elements(Map(CommentId, cs)[..n])
    && NoDup(Map(Location, cs)[..n]) && locations == Elements(Map(Location, cs)[..n])
    && NoDup(Map(BudgetKeyIn(m.cards), cs)[..n]) && keys == Elements(Map(BudgetKeyIn(m.cards), cs)[..n])
  }

  lemma NoCommentsRead(m: Manifest, cs: seq<Comment>)
    ensures CommentsRead(m, cs, 0, {}, {}, {})
  {
    InsertEnds(Map(CommentId, cs));
    InsertEnds(Map(Location, cs));
    InsertEnds(Map(BudgetKeyIn(m.cards), cs));
  }

  lemma CommentRead(m: Manifest, plan: Plan, i: nat, ids: set<string>, locations: set<(string, nat)>, keys: set<string>)
    requires i < |plan.comments| && CommentsRead(m, plan.comments, i, ids, locations, keys)
    ensures var c := plan.comments[i];
      var key := BudgetKeyIn(m.cards)(c);
      && (c.cardId in ids || (c.path, c.line) in locations || key in keys || !CommentOk(m, c) ==> !Acceptable(m, plan))
      && (c.cardId !in ids && (c.path, c.line) !in locations && key !in keys && CommentOk(m, c) ==>
            CommentsRead(m, plan.comments, i + 1, ids + {c.cardId}, locations + {(c.path, c.line)}, keys + {key}))
  {
    hide CommentOk, Acceptable, NoDup, BudgetKeyIn;
    var cs := plan.comments;
    InsertNext(Map(CommentId, cs), i);
    InsertNext(Map(Location, cs), i);
    InsertNext(Map(BudgetKeyIn(m.cards), cs), i);
    if !CommentOk(m, cs[i]) {
      BadCommentRejects(m, plan, i);
    } else if cs[i].cardId in ids || (cs[i].path, cs[i].line) in locations || BudgetKeyIn(m.cards)(cs[i]) in keys {
      RepeatRejects(m, plan);
    }
  }

  lemma AllCommentsRead(m: Manifest, plan: Plan, ids: set<string>, locations: set<(string, nat)>, keys: set<string>)
    requires CommentsRead(m, plan.comments, |plan.comments|, ids, locations, keys)
    ensures CommentsOk(m, plan.comments) && ids == Elements(Map(CommentId, plan.comments))
    ensures keys == SelectionOf(m, plan).budgetKeys
  {
    hide CommentOk, NoDup;
    InsertEnds(Map(CommentId, plan.comments));
    InsertEnds(Map(Location, plan.comments));
    InsertEnds(Map(BudgetKeyIn(m.cards), plan.comments));
  }

  ghost predicate EntriesRead(m: Manifest, plan: Plan, n: nat, ids: set<string>) {
    && n <= |plan.notSelected|
    && (forall i :: 0 <= i < n ==> EntryOk(m, SelectionOf(m, plan), plan.notSelected[i]))
    && (forall i :: 0 <= i < n ==> plan.notSelected[i].cardId !in Map(CommentId, plan.comments))
    && NoDup(Map(EntryId, plan.notSelected)[..n]) && ids == Elements(Map(EntryId, plan.notSelected)[..n])
  }

  lemma EntryRead(m: Manifest, plan: Plan, i: nat, ids: set<string>)
    requires i < |plan.notSelected| && EntriesRead(m, plan, i, ids)
    ensures var e := plan.notSelected[i];
      var ok := EntryOk(m, SelectionOf(m, plan), e) && e.cardId !in Map(CommentId, plan.comments) && e.cardId !in ids;
      (!ok ==> !Acceptable(m, plan)) && (ok ==> EntriesRead(m, plan, i + 1, ids + {e.cardId}))
  {
    hide EntryOk, Acceptable, NoDup, SelectionOf;
    InsertNext(Map(EntryId, plan.notSelected), i);
    if plan.notSelected[i].cardId in ids {
      RepeatRejects(m, plan);
    } else if !EntryOk(m, SelectionOf(m, plan), plan.notSelected[i]) ||
              plan.notSelected[i].cardId in Map(CommentId, plan.comments) {
      BadEntryRejects(m, plan, i);
    }
  }

  lemma NoEntriesRead(m: Manifest, plan: Plan)
    ensures EntriesRead(m, plan, 0, {})
  {
    InsertEnds(Map(EntryId, plan.notSelected));
  }

  lemma AllEntriesRead(m: Manifest, plan: Plan, ids: set<string>)
    requires EntriesRead(m, plan, |plan.notSelected|, ids)
    ensures EntriesOk(m, plan) && ids == Elements(Map(EntryId, plan.notSelected))
    ensures |ids| == |plan.notSelected|
  {
    hide EntryOk, SelectionOf;
    var es := Map(EntryId, plan.notSelected);
    InsertEnds(es);
    DistinctSize(es);
  }

  lemma {:induction false} DistinctSize(s: seq<string>)
    requires NoDup(s)
    ensures |Elements(s)| == |s|
  {
    if s != [] {
      var n := |s| - 1;
      DistinctSize(s[..n]);
      assert s[..n + 1] == s;
      InsertNext(s, n);
      NoDupNext(s, n);
    }
  }

  /** Accepts exactly the acceptable plans. */
  method CheckCommentPlanArtifact(m: Manifest, plan: Plan) returns (error: Option<PlanError>)
    requires Filed(m.cards)
    ensures error.None? <==> Acceptable(m, plan)
  {
    hide Acceptable, CommentsRead, EntriesRead, CommentsOk, EntriesOk, Eligible, PairOk, SelectionOf, NoDup, Map,
      CommentBudgetKey, AllWhitespace, Omitted, BudgetKeyIn, Contains, Words, Projects, BodiesProject;
    if !plan.headerOk {
      HeaderRejects(m, plan);
      return Some(BadHeader);
    }
    if |plan.comments| > 3 {
      HeaderRejects(m, plan);
      return Some(TooManyComments);
    }
    var ids: set<string>, locations: set<(string, nat)>, keys: set<string> := {}, {}, {};
    NoCommentsRead(m, plan.comments);
    for i := 0 to |plan.comments|
      invariant CommentsRead(m, plan.comments, i, ids, locations, keys)
    {
      var c := plan.comments[i];
      CommentRead(m, plan, i, ids, locations, keys);
      BudgetKeyOf(m, c);
      if c.cardId !in m.cards {
        return Some(UnknownCard);
      }
      var card := m.cards[c.cardId];
      if c.cardId in ids {
        return Some(RepeatedComment);
      }
      if AllWhitespace(c.path) {
        return Some(BlankPath);
      }
      if c.line == 0 {
        return Some(LineNotOneBased);
      }
      if !c.changedLine {
        return Some(NotOnChangedLine);
      }
      if c.path != card.path || c.line != card.line {
        return Some(ProjectionDiffers);
      }
      if (c.path, c.line) in locations {
        return Some(RepeatedLocation);
      }
      if !m.wording.sound(c.body) {
        return Some(BadWording);
      }
      if |Words(c.body)| > BODY_WORD_LIMIT {
        return Some(TooManyWords);
      }
      if !c.fieldsOk {
        return Some(BadFields);
      }
      if !Eligible(card) {
        return Some(NotEligible);
      }
      if card.className in ["static_unknown", "baseline_known", "suppressed"] {
        return Some(ClassNotSelectable);
      }
      var key := CommentBudgetKey(card);
      if key in keys {
        return Some(RepeatedBudgetKey);
      }
      if c.cardId !in m.repairs || c.repair != m.repairs[c.cardId] {
        return Some(RepairDiffers);
      }
      if !Contains(c.body, card.nextAction) {
        return Some(NoNextAction);
      }
      ids, locations, keys := ids + {c.cardId}, locations + {(c.path, c.line)}, keys + {key};
    }
    AllCommentsRead(m, plan, ids, locations, keys);
    var changed := ids;
    for i := 0 to |plan.notSelected|
      invariant changed == ids + set e | e in plan.notSelected[..i] && e.changedLine :: e.cardId
    {
      assert plan.notSelected[..i + 1] == plan.notSelected[..i] + [plan.notSelected[i]];
      if plan.notSelected[i].changedLine {
        changed := changed + {plan.notSelected[i].cardId};
      }
    }
    assert plan.notSelected[..|plan.notSelected|] == plan.notSelected;
    var omitted := TargetFeatureRepetitionOmittedIds(m.cards);
    var sel := Selection(|plan.comments|, keys, changed, omitted);
    SelectionIs(m, plan, sel);
    var entryIds: set<string> := {};
    NoEntriesRead(m, plan);
    for i := 0 to |plan.notSelected|
      invariant EntriesRead(m, plan, i, entryIds)
    {
      var e := plan.notSelected[i];
      EntryRead(m, plan, i, entryIds);
      if e.cardId !in m.cards {
        return Some(UnknownCard);
      }
      var card := m.cards[e.cardId];
      if e.cardId in ids {
        return Some(EntryRepeatsComment);
      }
      if e.cardId in entryIds {
        return Some(RepeatedEntry);
      }
      if AllWhitespace(e.path) {
        return Some(BlankPath);
      }
      if e.line == 0 {
        return Some(LineNotOneBased);
      }
      if e.path != card.path || e.line != card.line {
        return Some(ProjectionDiffers);
      }
      if !e.fieldsOk {
        return Some(BadFields);
      }
      if e.reason.None? || e.code.None? {
        return Some(UnknownReason);
      }
      if !PairOk(e.reason.value, e.code.value, card, m.cards, sel, e.changedLine) {
        return Some(WrongReason);
      }
      if e.cardId !in m.repairs || e.repair != m.repairs[e.cardId] {
        return Some(RepairDiffers);
      }
      entryIds := entryIds + {e.cardId};
    }
    AllEntriesRead(m, plan, entryIds);
    Conclude(m, plan, ids, entryIds);
    if exists id :: id in m.cards && id !in ids && id !in entryIds {
      return Some(UnaccountedCard);
    }
    assert plan.comments[..0] == [];
    NoneProject(m);
    for i := 0 to |plan.comments|
      invariant BodiesProject(m, plan.comments[..i])
    {
      var c := plan.comments[i];
      CommentIsCard(m, plan.comments, i);
      NextProjects(m, plan.comments, i);
      if !Projects(m, c.cardId, c.body) {
        return Some(BodyDiffers);
      }
    }
    assert plan.comments[..|plan.comments|] == plan.comments;
    if m.cardCount == 0 && !plan.noGapsOk {
      return Some(BadNoGaps);
    }
    if plan.selectedCount != |plan.comments| || plan.notSelectedCount != |entryIds| ||
       plan.budget != REVIEW_BUDGET || !plan.summaryOk {
      return Some(BadSummary);
    }
    error := None;
  }

  lemma CommentIsCard(m: Manifest, cs: seq<Comment>, i: nat)
    requires CommentsOk(m, cs) && i < |cs|
    ensures cs[i].cardId in m.cards
  {
    hide NoDup, BodyOk, Selectable, AllWhitespace;
    assert CommentOk(m, cs[i]);
  }

  lemma NoneProject(m: Manifest)
    ensures BodiesProject(m, [])
  {}

  lemma NextProjects(m: Manifest, cs: seq<Comment>, i: nat)
    requires i < |cs| && cs[i].cardId in m.cards && BodiesProject(m, cs[..i])
    ensures BodiesProject(m, cs[..i + 1]) <==> Projects(m, cs[i].cardId, cs[i].body)
    ensures !Projects(m, cs[i].cardId, cs[i].body) ==> !BodiesProject(m, cs)
  {
    hide Projects;
    var more := cs[..i + 1];
    assert more[i] == cs[i] && forall j :: 0 <= j < i ==> more[j] == cs[..i][j];
  }

  lemma HeaderRejects(m: Manifest, plan: Plan)
    requires !plan.headerOk || |plan.comments| > 3
    ensures !Acceptable(m, plan)
  {
    hide CommentsOk, EntriesOk, Covered, SummaryOk;
  }

  lemma BudgetKeyOf(m: Manifest, c: Comment)
    ensures c.cardId in m.cards ==> BudgetKeyIn(m.cards)(c) == CommentBudgetKey(m.cards[c.cardId])
  {}

  lemma SelectionIs(m: Manifest, plan: Plan, sel: Selection)
    requires sel.planned == |plan.comments| && sel.omitted == Omitted(m.cards)
    requires sel.budgetKeys == SelectionOf(m, plan).budgetKeys
    requires sel.changed == Elements(Map(CommentId, plan.comments))
                          + set e | e in plan.notSelected && e.changedLine :: e.cardId
    ensures sel == SelectionOf(m, plan)
  {}

  lemma Conclude(m: Manifest, plan: Plan, ids: set<string>, entryIds: set<string>)
    requires plan.headerOk && |plan.comments| <= 3 && CommentsOk(m, plan.comments) && EntriesOk(m, plan)
    requires ids == Elements(Map(CommentId, plan.comments)) && entryIds == Elements(Map(EntryId, plan.notSelected))
    ensures Acceptable(m, plan)
       <==> (forall id :: id in m.cards ==> id in ids || id in entryIds)
            && BodiesProject(m, plan.comments) && SummaryOk(m, plan)
  {
    hide CommentsOk, EntriesOk, SummaryOk, BodiesProject;
  }

  // ---------- what acceptance implies ----------

  /** An accepted plan splits the cards: every card is planned once or left out once,
    * never both, and nothing else appears. */
  lemma PlanPartitionsCards(m: Manifest, plan: Plan)
    requires Acceptable(m, plan)
    ensures multiset(Map(CommentId, plan.comments)) + multiset(Map(EntryId, plan.notSelected)) == multiset(m.cards.Keys)
    ensures |plan.comments| <= 3 && |plan.comments| + |plan.notSelected| == |m.cards|
    ensures plan.selectedCount + plan.notSelectedCount == |m.cards|
  {
    hide EntryOk, CommentOk, BodiesProject;
    var cs, es := Map(CommentId, plan.comments), Map(EntryId, plan.notSelected);
    IdsAreCards(m, plan);
    NoDupCounts(cs);
    NoDupCounts(es);
    forall id
      ensures (multiset(cs) + multiset(es))[id] == multiset(m.cards.Keys)[id]
    {
      assert id in cs <==> id in multiset(cs);
      assert id in es <==> id in multiset(es);
      assert multiset(cs)[id] <= 1 && multiset(es)[id] <= 1;
    }
    assert multiset(cs) + multiset(es) == multiset(m.cards.Keys);
    assert |multiset(cs) + multiset(es)| == |cs| + |es|;
  }

  lemma IdsAreCards(m: Manifest, plan: Plan)
    requires Acceptable(m, plan)
    ensures forall id :: id in Map(CommentId, plan.comments) ==> id in m.cards
    ensures forall id :: id in Map(EntryId, plan.notSelected) ==> id in m.cards
  {
    hide PairOk, SelectionOf, NoDup, Eligible, BodyOk, BodiesProject, SummaryOk, AllWhitespace;
    var cs, es := Map(CommentId, plan.comments), Map(EntryId, plan.notSelected);
    forall id | id in cs
      ensures id in m.cards
    {
      var i :| 0 <= i < |cs| && cs[i] == id;
      assert CommentOk(m, plan.comments[i]);
    }
    forall id | id in es
      ensures id in m.cards
    {
      var i :| 0 <= i < |es| && es[i] == id;
      assert EntryOk(m, SelectionOf(m, plan), plan.notSelected[i]);
    }
  }

  /** Two planned comments differ in card, in location and in budget key, and never
    * come from one target_feature group. */
  lemma PlannedCommentsDiffer(m: Manifest, plan: Plan, i: nat, j: nat)
    requires Acceptable(m, plan) && i < j < |plan.comments|
    ensures plan.comments[i].cardId in m.cards && plan.comments[j].cardId in m.cards
    ensures var a, b := m.cards[plan.comments[i].cardId], m.cards[plan.comments[j].cardId];
      && plan.comments[i].cardId != plan.comments[j].cardId
      && (a.path, a.line) != (b.path, b.line)
      && CommentBudgetKey(a) != CommentBudgetKey(b)
      && !(InFamily(a) && InFamily(b) && KeyOf(a) == KeyOf(b))
      && Eligible(a) && Eligible(b)
  {
    hide Eligible, KeyOf, CommentBudgetKey, InFamily;
    var cs := plan.comments;
    assert CommentOk(m, cs[i]) && CommentOk(m, cs[j]);
    assert Map(CommentId, cs)[i] != Map(CommentId, cs)[j];
    assert Map(Location, cs)[i] != Map(Location, cs)[j];
    assert Map(BudgetKeyIn(m.cards), cs)[i] != Map(BudgetKeyIn(m.cards), cs)[j];
    var a, b := m.cards[cs[i].cardId], m.cards[cs[j].cardId];
    if InFamily(a) && InFamily(b) && KeyOf(a) == KeyOf(b) {
      SameGroupSameBudget(a, b);
    }
  }

  predicate KeySelected(m: Manifest, plan: Plan, card: Card) {
    exists i :: 0 <= i < |plan.comments| && plan.comments[i].cardId in m.cards &&
      CommentBudgetKey(m.cards[plan.comments[i].cardId]) == CommentBudgetKey(card)
  }

  /** What an accepted code says about the card and the selection it was judged against. */
  ghost predicate CodeIsTrue(code: Code, card: Card, cards: Projections, sel: Selection, changedLine: bool) {
    && (code.GroupedRepetition? <==> card.id in sel.omitted)
    && (code.OutsideHunk? ==> !changedLine)
    && (code.CoveredBySpecificOperationCard? ==> CoveredBySpecific(card, cards, sel.changed))
    && (code.HumanDeepReviewOnly? || code.LowerRelevance? ==> changedLine && !Eligible(card))
    && (code.CoveredBySelectedFamilyObligation? || code.BudgetExhausted? || code.NotSelected? ==>
          changedLine && Eligible(card))
    && (Eligible(card) && changedLine && card.id !in sel.omitted ==>
          code == if CommentBudgetKey(card) in sel.budgetKeys then CoveredBySelectedFamilyObligation
                  else if sel.planned >= 3 then BudgetExhausted else NotSelected)
  }

  lemma CodesAreTrue(reason: Reason, code: Code, card: Card, cards: Projections, sel: Selection, changedLine: bool)
    requires PairOk(reason, code, card, cards, sel, changedLine)
    requires card.id in sel.omitted ==> Eligible(card)
    ensures CodeIsTrue(code, card, cards, sel, changedLine)
  {
    hide CoveredBySpecific, OwnerAmbiguous, CommentBudgetKey, LowConfidence, Prominent, ClassIsActionable;
    InlineIsNotOwner(card, cards, sel.changed);
  }

  /** In an accepted plan every reason code says something true of the whole plan, and an
    * eligible changed card that is not grouped away is left out because its budget key
    * is taken, because three comments are planned, or by policy, in that order. */
  lemma ReasonCodesAreTrue(m: Manifest, plan: Plan, e: Entry)
    requires Filed(m.cards) && Acceptable(m, plan) && e in plan.notSelected
    ensures e.cardId in m.cards && e.code.Some?
    ensures CodeIsTrue(e.code.value, m.cards[e.cardId], m.cards, SelectionOf(m, plan), e.changedLine)
    ensures KeySelected(m, plan, m.cards[e.cardId])
       <==> CommentBudgetKey(m.cards[e.cardId]) in SelectionOf(m, plan).budgetKeys
  {
    hide CommentBudgetKey, PairOk, AllWhitespace, Eligible, CodeIsTrue, NoDup, SelectionOf, CommentsOk, Acceptable;
    EntryIsOk(m, plan, e);
    var card, sel := m.cards[e.cardId], SelectionOf(m, plan);
    OmittedInSelection(m, plan, e.cardId);
    CodesAreTrue(e.reason.value, e.code.value, card, m.cards, sel, e.changedLine);
    KeysSelected(m, plan, card);
  }

  lemma EntryIsOk(m: Manifest, plan: Plan, e: Entry)
    requires Acceptable(m, plan) && e in plan.notSelected
    ensures EntryOk(m, SelectionOf(m, plan), e)
  {
    hide EntryOk, SelectionOf, CommentsOk, NoDup;
  }

  lemma OmittedInSelection(m: Manifest, plan: Plan, id: string)
    requires Filed(m.cards) && id in m.cards
    ensures m.cards[id].id in SelectionOf(m, plan).omitted ==> Eligible(m.cards[id])
  {
    hide Eligible, Beaten, InFamily;
  }

  lemma InlineIsNotOwner(card: Card, cards: Projections, changed: set<string>)
    ensures Eligible(card) ==> !CoveredBySpecific(card, cards, changed)
    ensures Eligible(card) ==> !OwnerAmbiguous(card, cards, changed)
  {}

  lemma KeysSelected(m: Manifest, plan: Plan, card: Card)
    requires Acceptable(m, plan)
    ensures KeySelected(m, plan, card) <==> CommentBudgetKey(card) in SelectionOf(m, plan).budgetKeys
  {
    hide CommentBudgetKey, Eligible, EntriesOk, NoDup;
    var cs := plan.comments;
    var keys := Map(BudgetKeyIn(m.cards), cs);
    forall i | 0 <= i < |cs|
      ensures cs[i].cardId in m.cards && keys[i] == CommentBudgetKey(m.cards[cs[i].cardId])
    {
      assert CommentOk(m, cs[i]);
    }
    if KeySelected(m, plan, card) {
      var i :| 0 <= i < |cs| && CommentBudgetKey(m.cards[cs[i].cardId]) == CommentBudgetKey(card);
      assert keys[i] in keys;
    }
  }

  // ---------- order ----------

  /** The same plan with its two lists reordered. */
  ghost predicate Reordered(plan: Plan, plan': Plan) {
    multiset(plan.comments) == multiset(plan'.comments) &&
    multiset(plan.notSelected) == multiset(plan'.notSelected) &&
    plan' == plan.(comments := plan'.comments, notSelected := plan'.notSelected)
  }

  /** Whether a plan is accepted does not depend on the order of its entries. */
  lemma AcceptanceIgnoresOrder(m: Manifest, plan: Plan, plan': Plan)
    requires Reordered(plan, plan') && Acceptable(m, plan)
    ensures Acceptable(m, plan')
  {
    hide CommentOk, EntryOk, NoDup, SelectionOf, BudgetKeyIn, Projects;
    SameElements(plan.comments, plan'.comments);
    SameElements(plan.notSelected, plan'.notSelected);
    NoDupPermutes(CommentId, plan.comments, plan'.comments);
    NoDupPermutes(Location, plan.comments, plan'.comments);
    NoDupPermutes(BudgetKeyIn(m.cards), plan.comments, plan'.comments);
    NoDupPermutes(EntryId, plan.notSelected, plan'.notSelected);
    SameImages(CommentId, plan.comments, plan'.comments);
    SameImages(EntryId, plan.notSelected, plan'.notSelected);
    SameSelection(m, plan, plan');
    forall i | 0 <= i < |plan'.comments|
      ensures CommentOk(m, plan'.comments[i])
      ensures plan'.comments[i].cardId in m.cards && Projects(m, plan'.comments[i].cardId, plan'.comments[i].body)
    {
      assert plan'.comments[i] in plan.comments;
    }
    forall i | 0 <= i < |plan'.notSelected|
      ensures EntryOk(m, SelectionOf(m, plan'), plan'.notSelected[i])
    {
      assert plan'.notSelected[i] in plan.notSelected;
    }
  }

  lemma SameImages<T, U>(f: T -> U, s: seq<T>, t: seq<T>)
    requires multiset(s) == multiset(t)
    ensures forall x :: x in Map(f, s) <==> x in Map(f, t)
  {
    MapPermutes(f, s, t);
    SameElements(Map(f, s), Map(f, t));
  }

  lemma SameSelection(m: Manifest, plan: Plan, plan': Plan)
    requires Reordered(plan, plan')
    ensures SelectionOf(m, plan) == SelectionOf(m, plan')
  {
    hide BudgetKeyIn, Omitted;
    SameElements(plan.comments, plan'.comments);
    SameElements(plan.notSelected, plan'.notSelected);
    SameImages(CommentId, plan.comments, plan'.comments);
    SameImages(BudgetKeyIn(m.cards), plan.comments, plan'.comments);
    assert ChangedIds(plan) == ChangedIds(plan');
  }

  // ---------- what acceptance does not imply ----------

  /** The verifier justifies omitting all but the best ranked member of a group, but it
    * does not insist that the best ranked one is planned: for any two competing cards of
    * one group a plan that comments on the beaten card, and leaves the better ranked one
    * out as covered by it, is accepted. */
  lemma BeatenCardMayBePlanned(a: Card, b: Card, m: Manifest, body: string, plan: Plan)
    requires Competes(a) && Competes(b) && KeyOf(a) == KeyOf(b) && a.id != b.id && Before(a, b)
    requires m.cards == map[a.id := a, b.id := b] && m.cardCount == 2 && a.id in m.repairs && b.id in m.repairs
    requires !AllWhitespace(b.path) && a.line != 0 && b.line != 0
    requires b.className !in ["static_unknown", "baseline_known", "suppressed"]
    requires BodyOk(m, b, body) && Projects(m, b.id, body)
    requires plan == Plan(true, [Comment(b.id, b.path, b.line, true, body, m.repairs[b.id], true)],
      [Entry(a.id, a.path, a.line, true, Some(CoveredBySibling), Some(CoveredBySelectedFamilyObligation),
             m.repairs[a.id], true)], true, 1, 1, 3, true)
    ensures Acceptable(m, plan) && b.id in Omitted(m.cards)
  {
    hide Eligible, Before, AllWhitespace, KeyOf, CommentBudgetKey, PairOk, Omitted, InFamily, EntryOk, CommentOk, BodyOk, Projects;
    PairIsOmitted(a, b);
    SameGroupSameBudget(a, b);
    SameGroupSamePath(a, b);
    var c, e := plan.comments[0], plan.notSelected[0];
    assert CommentOk(m, c) by {
      PlannedIsOk(m, c);
    }
    assert Map(CommentId, plan.comments) == [b.id] && Map(EntryId, plan.notSelected) == [a.id];
    var keys := Map(BudgetKeyIn(m.cards), plan.comments);
    assert keys == [CommentBudgetKey(b)] && keys[0] in keys;
    SiblingCovers(a, m.cards, SelectionOf(m, plan));
    assert EntryOk(m, SelectionOf(m, plan), e) by {
      LeftOutIsOk(m, SelectionOf(m, plan), e);
    }
  }

  lemma SameGroupSamePath(a: Card, b: Card)
    requires KeyOf(a) == KeyOf(b)
    ensures a.path == b.path
  {
    assert KeyOf(a).path == a.path && KeyOf(b).path == b.path;
  }

  lemma PlannedIsOk(m: Manifest, c: Comment)
    requires c.cardId in m.cards && !AllWhitespace(c.path) && c.line != 0 && c.changedLine && c.fieldsOk
    requires c.path == m.cards[c.cardId].path && c.line == m.cards[c.cardId].line && Eligible(m.cards[c.cardId])
    requires m.cards[c.cardId].className !in ["static_unknown", "baseline_known", "suppressed"]
    requires c.cardId in m.repairs && c.repair == m.repairs[c.cardId] && BodyOk(m, m.cards[c.cardId], c.body)
    ensures CommentOk(m, c)
  {
    hide Eligible, AllWhitespace, BodyOk;
  }

  lemma LeftOutIsOk(m: Manifest, sel: Selection, e: Entry)
    requires e.cardId in m.cards && !AllWhitespace(e.path) && e.line != 0 && e.fieldsOk
    requires e.path == m.cards[e.cardId].path && e.line == m.cards[e.cardId].line
    requires e.reason.Some? && e.code.Some?
    requires PairOk(e.reason.value, e.code.value, m.cards[e.cardId], m.cards, sel, e.changedLine)
    requires e.cardId in m.repairs && e.repair == m.repairs[e.cardId]
    ensures EntryOk(m, sel, e)
  {
    hide PairOk, AllWhitespace;
  }

  lemma PairIsOmitted(a: Card, b: Card)
    requires Competes(a) && Competes(b) && KeyOf(a) == KeyOf(b) && a.id != b.id && Before(a, b)
    ensures b.id in Omitted(map[a.id := a, b.id := b]) && a.id !in Omitted(map[a.id := a, b.id := b])
  {
    hide Before, Competes, KeyOf;
    BeforeIsTotal(a, b);
    BeforeIsTotal(a, a);
    var cards := map[a.id := a, b.id := b];
    assert cards[a.id] == a && cards[b.id] == b;
    assert Beaten(cards, b.id);
    assert !Beaten(cards, a.id);
  }

  lemma SiblingCovers(card: Card, cards: Projections, sel: Selection)
    requires Eligible(card) && CommentBudgetKey(card) in sel.budgetKeys && card.id !in sel.omitted
    ensures PairOk(CoveredBySibling, CoveredBySelectedFamilyObligation, card, cards, sel, true)
  {
    hide CommentBudgetKey;
    InlineIsNotOwner(card, cards, sel.changed);
  }

  /** Every card can be listed at all: it has a place and an entry in the repair queue. */
  ghost predicate Representable(m: Manifest) {
    forall id :: id in m.cards ==> !AllWhitespace(m.cards[id].path) && m.cards[id].line != 0 && id in m.repairs
  }

  /** Accepted plans exist only for such manifests. */
  lemma AcceptedIsRepresentable(m: Manifest, plan: Plan)
    requires Acceptable(m, plan)
    ensures Representable(m)
  {
    hide Selectable, PairOk, AllWhitespace, NoDup, SelectionOf, SummaryOk, BodyOk, BodiesProject;
    forall id | id in m.cards
      ensures !AllWhitespace(m.cards[id].path) && m.cards[id].line != 0 && id in m.repairs
    {
      if id in Map(CommentId, plan.comments) {
        var i :| 0 <= i < |plan.comments| && plan.comments[i].cardId == id;
        assert CommentOk(m, plan.comments[i]);
      } else {
        var i :| 0 <= i < |plan.notSelected| && plan.notSelected[i].cardId == id;
        assert EntryOk(m, SelectionOf(m, plan), plan.notSelected[i]);
      }
    }
  }

  /** Some body could be written for a comment on the card. */
  ghost predicate Commentable(m: Manifest, id: string)
    requires id in m.cards
  {
    exists body :: BodyOk(m, m.cards[id], body) && Projects(m, id, body)
  }

  /** Every passage that a comment on the card has to hold is itself within the word limit. */
  lemma CommentableNeedsRoom(m: Manifest, id: string)
    requires id in m.cards && Commentable(m, id)
    ensures |Words(NEXT_ACTION + m.cards[id].nextAction)| <= BODY_WORD_LIMIT
    ensures forall i :: 0 <= i < |m.wording.passages(id)| ==> |Words(m.wording.passages(id)[i])| <= BODY_WORD_LIMIT
  {
    hide Words, NEXT_ACTION, Contains;
    var passages := m.wording.passages(id);
    var body :| BodyOk(m, m.cards[id], body) && Projects(m, id, body);
    ContainedWords(body, NEXT_ACTION + m.cards[id].nextAction);
    forall i | 0 <= i < |passages|
      ensures |Words(passages[i])| <= BODY_WORD_LIMIT
    {
      ContainedWords(body, passages[i]);
    }
  }

  lemma ContainedWords(text: string, part: string)
    requires Contains(text, part)
    ensures |Words(part)| <= |Words(text)|
  {
    hide Words, Contains;
    var front, back := PartedAt(text, part);
    WordsOfPart(front, part, back);
  }

  /** The passages one below the other. */
  function AllPassages(m: Manifest, id: string): seq<string>
    requires id in m.cards
  {
    [NEXT_ACTION + m.cards[id].nextAction] + m.wording.passages(id)
  }

  /** If they fit the limit as they are, and are worded as they should be, they make a body. */
  lemma RoomIsEnough(m: Manifest, id: string)
    requires id in m.cards
    requires var body := Join(AllPassages(m, id), "\n"); m.wording.sound(body) && |Words(body)| <= BODY_WORD_LIMIT
    ensures Commentable(m, id)
  {
    hide Words, NEXT_ACTION, Contains, Find, Join;
    var all, passages := AllPassages(m, id), m.wording.passages(id);
    var body := Join(all, "\n");
    forall i | 0 <= i < |all|
      ensures Contains(body, all[i])
    {
      PassageContained(all, i);
    }
    assert Contains(body, all[0]) && all[0] == NEXT_ACTION + m.cards[id].nextAction;
    TailContained(body, NEXT_ACTION, m.cards[id].nextAction);
    assert forall i :: 0 <= i < |passages| ==> passages[i] == all[i + 1];
    assert BodyOk(m, m.cards[id], body) && Projects(m, id, body);
  }

  lemma ContainedAt(text: string, front: string, part: string, back: string)
    requires text == front + part + back
    ensures Contains(text, part)
  {
    assert text[|front|..|front| + |part|] == part;
    assert OccursAt(text, part, |front|);
  }

  lemma PartedAt(text: string, part: string) returns (front: string, back: string)
    requires Contains(text, part)
    ensures text == front + part + back
  {
    var i := Find(text, part).value;
    front, back := text[..i], text[i + |part|..];
  }

  lemma TailContained(text: string, head: string, part: string)
    requires Contains(text, head + part)
    ensures Contains(text, part)
  {
    hide Contains;
    var front, back := PartedAt(text, head + part);
    assert text == front + head + part + back;
    ContainedAt(text, front + head, part, back);
  }

  lemma {:induction false} PassageContained(all: seq<string>, i: nat)
    requires i < |all|
    ensures Contains(Join(all, "\n"), all[i])
  {
    hide Find, Contains;
    var body := Join(all, "\n");
    if |all| == 1 {
      ContainedAt(body, "", all[0], "");
    } else {
      var rest := Join(all[1..], "\n");
      if i == 0 {
        ContainedAt(body, "", all[0], "\n" + rest);
      } else {
        PassageContained(all[1..], i - 1);
        PartContained(all[0] + "\n", rest, all[i]);
      }
    }
  }

  lemma PartContained(head: string, text: string, part: string)
    requires Contains(text, part)
    ensures Contains(head + text, part)
  {
    hide Contains;
    var front, back := PartedAt(text, part);
    assert head + text == head + front + part + back;
    ContainedAt(head + text, head + front, part, back);
  }

  lemma {:induction false} Listing(ids: set<string>) returns (list: seq<string>)
    ensures NoDup(list) && Elements(list) == ids
    decreases |ids|
  {
    if ids == {} {
      list := [];
    } else {
      var id :| id in ids;
      var rest := Listing(ids - {id});
      list := rest + [id];
      assert ids == (ids - {id}) + {id};
      assert id !in Elements(rest);
    }
  }

  /** The entry of a left-out changed card with the reason that is expected for it. */
  function LeftOut(m: Manifest, sel: Selection, id: string): Entry
    requires id in m.cards && id in m.repairs
  {
    var card := m.cards[id];
    Entry(id, card.path, card.line, true, Some(ExpectedReason(card, m.cards, sel, true)),
          Some(ExpectedCode(card, m.cards, sel, true)), m.repairs[id], true)
  }

  lemma LeftOutEntryIsOk(m: Manifest, sel: Selection, id: string)
    requires Representable(m) && id in m.cards
    ensures EntryOk(m, sel, LeftOut(m, sel, id)) && LeftOut(m, sel, id).cardId == id && LeftOut(m, sel, id).changedLine
  {
    hide AllWhitespace, ExpectedReason, ExpectedCode, OwnerAmbiguous, PlainReason, PlainCode;
  }

  /** The selection of a plan whose only comment is on b, all cards being changed. */
  function OnlySelection(m: Manifest, b: string): Selection
    requires b in m.cards
  {
    Selection(1, {CommentBudgetKey(m.cards[b])}, m.cards.Keys, Omitted(m.cards))
  }

  function OnlyPlan(m: Manifest, b: string, body: string, rest: seq<string>): Plan
    requires Representable(m) && b in m.cards && forall i :: 0 <= i < |rest| ==> rest[i] in m.cards
  {
    var card := m.cards[b];
    Plan(true, [Comment(b, card.path, card.line, true, body, m.repairs[b], true)],
         seq(|rest|, i requires 0 <= i < |rest| => LeftOut(m, OnlySelection(m, b), rest[i])),
         true, 1, |rest|, REVIEW_BUDGET, true)
  }

  lemma OnlyPlanLists(m: Manifest, b: string, body: string, rest: seq<string>)
    requires Representable(m) && b in m.cards && forall i :: 0 <= i < |rest| ==> rest[i] in m.cards
    ensures var plan := OnlyPlan(m, b, body, rest);
      && Map(CommentId, plan.comments) == [b] && Map(EntryId, plan.notSelected) == rest
      && Map(BudgetKeyIn(m.cards), plan.comments) == [CommentBudgetKey(m.cards[b])]
      && |Map(Location, plan.comments)| == 1
  {
    hide CommentBudgetKey, AllWhitespace, ExpectedReason, ExpectedCode, Omitted;
  }

  lemma OnlyPlanSelection(m: Manifest, b: string, body: string, rest: seq<string>)
    requires Representable(m) && b in m.cards && Elements(rest) == m.cards.Keys - {b}
    requires forall i :: 0 <= i < |rest| ==> rest[i] in m.cards
    ensures SelectionOf(m, OnlyPlan(m, b, body, rest)) == OnlySelection(m, b)
  {
    hide CommentBudgetKey, AllWhitespace, ExpectedReason, ExpectedCode, Omitted, Map, Representable;
    var plan := OnlyPlan(m, b, body, rest);
    OnlyPlanLists(m, b, body, rest);
    assert Elements([b]) == {b} && Elements([CommentBudgetKey(m.cards[b])]) == {CommentBudgetKey(m.cards[b])};
    var changed := set e | e in plan.notSelected && e.changedLine :: e.cardId;
    forall id
      ensures id in changed <==> id in Elements(rest)
    {
      if id in Elements(rest) {
        var i :| 0 <= i < |rest| && rest[i] == id;
        assert plan.notSelected[i] in plan.notSelected && plan.notSelected[i].cardId == id;
      }
    }
    assert ChangedIds(plan) == m.cards.Keys;
  }

  /** Any selectable card that a comment can be written for may be the only one that a plan
    * comments on. */
  lemma AnySelectableMayBePlanned(m: Manifest, b: string) returns (plan: Plan)
    requires Filed(m.cards) && Representable(m) && b in m.cards && Selectable(m.cards[b]) && Commentable(m, b)
    ensures Acceptable(m, plan) && Map(CommentId, plan.comments) == [b]
  {
    hide Selectable, AllWhitespace, Map, NoDup, SelectionOf, OnlySelection, CommentOk, EntryOk, LeftOut, CommentBudgetKey,
      BodyOk, Projects;
    var body :| BodyOk(m, m.cards[b], body) && Projects(m, b, body);
    var rest := Listing(m.cards.Keys - {b});
    assert forall i :: 0 <= i < |rest| ==> rest[i] in Elements(rest);
    plan := OnlyPlan(m, b, body, rest);
    OnlyPlanLists(m, b, body, rest);
    OnlyPlanSelection(m, b, body, rest);
    forall i | 0 <= i < |rest|
      ensures EntryOk(m, OnlySelection(m, b), plan.notSelected[i])
    {
      LeftOutEntryIsOk(m, OnlySelection(m, b), rest[i]);
    }
    OnlyCommentIsOk(m, b, body, rest);
    Singles(plan, m);
    forall id | id in m.cards
      ensures id == b || id in rest
    {
      assert id != b ==> id in Elements(rest);
    }
    assert b !in Elements(rest);
  }

  lemma OnlyCommentIsOk(m: Manifest, b: string, body: string, rest: seq<string>)
    requires Representable(m) && b in m.cards && Selectable(m.cards[b]) && BodyOk(m, m.cards[b], body)
    requires forall i :: 0 <= i < |rest| ==> rest[i] in m.cards
    ensures CommentOk(m, OnlyPlan(m, b, body, rest).comments[0])
  {
    hide Selectable, AllWhitespace, LeftOut, BodyOk;
  }

  lemma Singles(plan: Plan, m: Manifest)
    requires |plan.comments| == 1
    ensures NoDup(Map(CommentId, plan.comments)) && NoDup(Map(Location, plan.comments))
    ensures NoDup(Map(BudgetKeyIn(m.cards), plan.comments))
  {}

  /** No accepted plan comments on an omitted card. */
  ghost predicate PlansAvoidOmitted(m: Manifest) {
    forall plan, id :: Acceptable(m, plan) && id in Map(CommentId, plan.comments) ==> id !in Omitted(m.cards)
  }

  lemma OmittedMayBePlanned(m: Manifest, id: string)
    requires Filed(m.cards) && Representable(m) && id in m.cards && Selectable(m.cards[id]) && Commentable(m, id)
    ensures id in Omitted(m.cards) ==> !PlansAvoidOmitted(m)
  {
    hide Acceptable, Representable, Selectable, Commentable, Map, Omitted;
    var plan := AnySelectableMayBePlanned(m, id);
    assert [id][0] == id;
  }

  /** The verifier keeps plans to the groups' representatives exactly when it has no choice:
    * when no omitted card could be planned, or no plan is accepted at all. */
  lemma PlansAvoidOmittedExactlyWhen(m: Manifest)
    requires Filed(m.cards)
    ensures PlansAvoidOmitted(m) <==>
      !Representable(m) || forall id :: id in Omitted(m.cards) ==> !(Selectable(m.cards[id]) && Commentable(m, id))
  {
    hide Acceptable, Representable, Selectable, Commentable, Map, Omitted;
    OmittedAreCards(m.cards);
    if PlansAvoidOmitted(m) && Representable(m) {
      forall id | id in Omitted(m.cards)
        ensures !(Selectable(m.cards[id]) && Commentable(m, id))
      {
        if Selectable(m.cards[id]) && Commentable(m, id) {
          OmittedMayBePlanned(m, id);
        }
      }
    }
    forall plan, id | Acceptable(m, plan) && id in Map(CommentId, plan.comments)
      ensures Representable(m) && id in m.cards && Selectable(m.cards[id]) && Commentable(m, id)
    {
      AcceptedIsRepresentable(m, plan);
      PlannedIsSelectable(m, plan, id);
    }
  }

  lemma OmittedAreCards(cards: Projections)
    ensures forall id :: id in Omitted(cards) ==> id in cards
  {
    hide Competes, Beaten;
  }

  lemma PlannedIsSelectable(m: Manifest, plan: Plan, id: string)
    requires Acceptable(m, plan) && id in Map(CommentId, plan.comments)
    ensures id in m.cards && Selectable(m.cards[id]) && Commentable(m, id)
  {
    hide Selectable, NoDup, EntriesOk, Covered, SummaryOk, AllWhitespace, BodyOk, Projects;
    var i :| 0 <= i < |plan.comments| && plan.comments[i].cardId == id;
    assert CommentOk(m, plan.comments[i]);
    assert BodyOk(m, m.cards[id], plan.comments[i].body) && Projects(m, id, plan.comments[i].body);
  }
}
