/** The ReviewCard fields the artifact verifier reads and the decisions it draws from
  * one card: xtask/src/advisory_artifacts.rs. */
module Cards {
  import opened Wrappers
  import opened Text
  import opened StringSets

  /** An obligation's evidence: its key, when it has a string key, and which axes are present. */
  datatype Evidence = Evidence(key: Option<string>, hasContract: bool, hasDischarge: bool,
                               hasReach: bool, hasWitness: bool)

  datatype Card = Card(
    id: string, className: string, priority: string, confidence: string, path: string, siteKind: string,
    owner: string, line: nat, operation: string, operationFamily: string, nextAction: string,
    obligations: seq<Evidence>, contractCoverage: string, guardCoverage: string, testReachCoverage: string,
    witnessReceiptCoverage: string, baselineState: string)

  datatype Disposition = InlineCandidate | UnsafeDeclaration | FallbackUnsafeSite

  // ---------- eligibility ----------

  predicate ClassIsActionable(className: string) {
    className in ["guarded_unwitnessed", "contract_missing", "guard_missing", "reachable_unwitnessed",
                  "unsafe_unreached", "requires_loom", "requires_sanitizer", "requires_kani_or_crux",
                  "miri_unsupported", "static_unknown"]
  }

  function SurfacingDisposition(card: Card): Disposition {
    if card.siteKind in ["unsafe_fn", "unsafe_trait"] then UnsafeDeclaration
    else if card.siteKind in ["unsafe_block", "unsafe_impl"] then FallbackUnsafeSite
    else InlineCandidate
  }

  predicate LowConfidence(card: Card) {
    card.confidence in ["low", "unknown"]
  }

  predicate Prominent(card: Card) {
    card.priority == "high" || card.confidence == "high"
  }

  /** Whether the card may get an inline comment at all. */
  predicate Eligible(card: Card) {
    ClassIsActionable(card.className) && SurfacingDisposition(card).InlineCandidate? && Prominent(card)
    && !LowConfidence(card)
  }

  // ---------- unsatisfied obligations ----------

  predicate Unsatisfied(e: Evidence) {
    !e.hasContract || !e.hasDischarge || !e.hasReach || !e.hasWitness
  }

  function UnsatisfiedKeys(obligations: seq<Evidence>): (keys: seq<string>)
    ensures forall k :: k in keys <==> exists e :: e in obligations && Unsatisfied(e) && e.key == Some(k)
  {
    if obligations == [] then []
    else
      assert obligations == [obligations[0]] + obligations[1..];
      var rest := UnsatisfiedKeys(obligations[1..]);
      if Unsatisfied(obligations[0]) && obligations[0].key.Some? then [obligations[0].key.value] + rest else rest
  }

  /** The unsatisfied obligation keys, sorted and distinct, or "review" when there are none. */
  function UnsatisfiedObligationKeys(card: Card): (keys: seq<string>)
    ensures keys != []
  {
    var keys := SortDedup(UnsatisfiedKeys(card.obligations));
    if keys == [] then ["review"] else keys
  }

  function CommentBudgetKey(card: Card): string {
    card.operationFamily + ":" + Join(UnsatisfiedObligationKeys(card), "|")
  }

  ghost function UnsatisfiedSet(card: Card): set<string> {
    set k | k in UnsatisfiedKeys(card.obligations)
  }

  /** The obligation part of a budget key depends on the set of unsatisfied keys and on
    * nothing else: order, repetition and satisfied obligations do not matter. */
  lemma ObligationsAreASet(a: Card, b: Card)
    requires UnsatisfiedSet(a) == UnsatisfiedSet(b)
    ensures UnsatisfiedObligationKeys(a) == UnsatisfiedObligationKeys(b)
    ensures a.operationFamily == b.operationFamily ==> CommentBudgetKey(a) == CommentBudgetKey(b)
  {
    var ka, kb := UnsatisfiedKeys(a.obligations), UnsatisfiedKeys(b.obligations);
    assert forall k :: k in ka <==> k in UnsatisfiedSet(a);
    assert forall k :: k in kb <==> k in UnsatisfiedSet(b);
    SortedIsCanonical(SortDedup(ka), SortDedup(kb));
  }
}
