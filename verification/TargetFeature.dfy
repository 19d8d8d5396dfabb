/** Grouping of repetitive target_feature cards: xtask/src/advisory_artifacts.rs,
  * lines 8846-9014. */
module TargetFeature {
  import opened Wrappers
  import opened Text
  import opened Cards
  import opened Shape

  // ---------- equivalence ----------

  datatype GroupKey = GroupKey(
    path: string, className: string, baselineState: string, contractCoverage: string, guardCoverage: string,
    testReachCoverage: string, witnessReceiptCoverage: string, nextAction: string,
    missingObligations: seq<string>, shape: string)

  function KeyOf(card: Card): GroupKey {
    GroupKey(card.path, card.className, card.baselineState, card.contractCoverage, card.guardCoverage,
             card.testReachCoverage, card.witnessReceiptCoverage, card.nextAction,
             UnsatisfiedObligationKeys(card), NormalizedShape(card.operation))
  }

  predicate InFamily(card: Card) {
    card.operationFamily == "target_feature"
  }

  /** Cards of one group compete for one comment budget key. */
  lemma SameGroupSameBudget(a: Card, b: Card)
    requires InFamily(a) && InFamily(b) && KeyOf(a) == KeyOf(b)
    ensures CommentBudgetKey(a) == CommentBudgetKey(b)
  {
    hide NormalizedShape, UnsatisfiedObligationKeys;
  }

  // ---------- rank ----------

  function GapSeverityRank(card: Card): nat {
    if card.contractCoverage != "present" then 0
    else if card.guardCoverage == "missing" then 1
    else if card.guardCoverage == "weak" then 2
    else if card.testReachCoverage == "weak" then 3
    else if card.testReachCoverage != "present" then 4
    else 5
  }

  function PriorityRank(card: Card): nat {
    if card.priority == "high" then 0 else 1
  }

  function ConfidenceRank(card: Card): nat {
    if card.confidence == "high" then 0 else 1
  }

  /** The importance rank, then the card id, compared lexicographically. */
  predicate Before(a: Card, b: Card) {
    if PriorityRank(a) != PriorityRank(b) then PriorityRank(a) < PriorityRank(b)
    else if GapSeverityRank(a) != GapSeverityRank(b) then GapSeverityRank(a) < GapSeverityRank(b)
    else if ConfidenceRank(a) != ConfidenceRank(b) then ConfidenceRank(a) < ConfidenceRank(b)
    else if a.path != b.path then StrLess(a.path, b.path)
    else if a.line != b.line then a.line < b.line
    else StrLess(a.id, b.id)
  }

  lemma BeforeIsTotal(a: Card, b: Card)
    ensures Before(a, b) || Before(b, a) || a.id == b.id
    ensures !(Before(a, b) && Before(b, a))
  {
    StrLessTotal(a.path, b.path);
    StrLessTotal(a.id, b.id);
  }

  lemma BeforeIsTransitive(a: Card, b: Card, c: Card)
    requires Before(a, b) && Before(b, c)
    ensures Before(a, c)
  {
    if StrLess(a.path, b.path) && StrLess(b.path, c.path) {
      StrLessTransitive(a.path, b.path, c.path);
      StrLessTotal(a.path, c.path);
    }
    if StrLess(a.id, b.id) && StrLess(b.id, c.id) {
      StrLessTransitive(a.id, b.id, c.id);
    }
  }

  // ---------- who is omitted ----------

  type Projections = map<string, Card>

  /** Projections are filed under the id of the card they describe. */
  predicate Filed(cards: Projections) {
    forall id :: id in cards ==> cards[id].id == id
  }

  /** A card that competes to represent its group. */
  predicate Competes(card: Card) {
    InFamily(card) && Eligible(card)
  }

  predicate Beaten(cards: Projections, id: string)
    requires id in cards
  {
    exists other :: other in cards && Competes(cards[other]) && KeyOf(cards[other]) == KeyOf(cards[id]) &&
      Before(cards[other], cards[id])
  }

  /** The competing cards that come after another competitor of their group. */
  function Omitted(cards: Projections): set<string> {
    set id | id in cards && Competes(cards[id]) && Beaten(cards, id)
  }

  predicate Distinct(cards: seq<Card>) {
    forall i, j :: 0 <= i < j < |cards| ==> cards[i].id != cards[j].id
  }

  predicate Ranked(cards: seq<Card>) {
    forall i, j :: 0 <= i < j < |cards| ==> Before(cards[i], cards[j])
  }

  predicate SameCards(a: seq<Card>, b: seq<Card>) {
    multiset(a) == multiset(b)
  }

  /** The card put in its place among cards that come in rank order. */
  function InsertRanked(card: Card, ranked: seq<Card>): (r: seq<Card>)
    requires Ranked(ranked) && forall c :: c in ranked ==> c.id != card.id
    ensures Ranked(r) && SameCards(r, [card] + ranked)
    ensures forall c :: c in r <==> c == card || c in ranked
  {
    hide Before, Ranked;
    if ranked == [] then
      RankedCons(card, []);
      assert [card] + [] == [card];
      [card]
    else
      BeforeIsTotal(card, ranked[0]);
      assert ranked == [ranked[0]] + ranked[1..];
      RankedRest(ranked);
      if Before(card, ranked[0]) then
        AheadOfAll(card, ranked);
        RankedCons(card, ranked);
        [card] + ranked
      else
        var rest := InsertRanked(card, ranked[1..]);
        RankedCons(ranked[0], rest);
        [ranked[0]] + rest
  }

  lemma RankedCons(card: Card, ranked: seq<Card>)
    requires forall c :: c in ranked ==> Before(card, c)
    requires Ranked(ranked)
    ensures Ranked([card] + ranked)
  {}

  lemma RankedRest(ranked: seq<Card>)
    requires Ranked(ranked) && ranked != []
    ensures Ranked(ranked[1..]) && forall c :: c in ranked[1..] ==> Before(ranked[0], c)
  {
    hide Before;
    assert forall j :: 0 < j < |ranked| ==> Before(ranked[0], ranked[j]);
  }

  lemma AheadOfAll(card: Card, ranked: seq<Card>)
    requires ranked != [] && Ranked(ranked) && Before(card, ranked[0])
    ensures forall c :: c in ranked ==> Before(card, c)
  {
    hide Before;
    forall c | c in ranked
      ensures Before(card, c)
    {
      var j :| 0 <= j < |ranked| && ranked[j] == c;
      if j > 0 {
        BeforeIsTransitive(card, ranked[0], c);
      }
    }
  }

  /** sort_by with the rank order. */
  function SortRanked(cards: seq<Card>): (r: seq<Card>)
    requires Distinct(cards)
    ensures Ranked(r) && SameCards(r, cards) && |r| == |cards|
    ensures forall c :: c in r <==> c in cards
  {
    if cards == [] then []
    else
      assert cards == [cards[0]] + cards[1..];
      var rest := SortRanked(cards[1..]);
      var r := InsertRanked(cards[0], rest);
      assert |r| == |multiset(r)| == |multiset(cards)| == |cards|;
      r
  }

  predicate Sound(cards: Projections, group: seq<Card>) {
    Distinct(group) && forall c :: c in group ==> c.id in cards && cards[c.id] == c
  }

  /** The group list holds exactly the family members with that key among the given ids. */
  ghost predicate IsGroup(cards: Projections, ids: set<string>, key: GroupKey, group: seq<Card>) {
    Sound(cards, group) &&
    forall id :: id in cards ==>
      (cards[id] in group <==> id in ids && InFamily(cards[id]) && KeyOf(cards[id]) == key)
  }

  function EligibleOf(group: seq<Card>): (r: seq<Card>)
    ensures forall c :: c in r <==> c in group && Eligible(c)
    ensures Distinct(group) ==> Distinct(r)
  {
    if group == [] then []
    else
      assert group == [group[0]] + group[1..];
      var rest := EligibleOf(group[1..]);
      if Eligible(group[0]) then
        assert Distinct(group) ==> forall c :: c in rest ==> c.id != group[0].id;
        [group[0]] + rest
      else rest
  }

  function Ids(cards: seq<Card>): set<string> {
    set c | c in cards :: c.id
  }

  function Skipped(ranked: seq<Card>): (rest: seq<Card>)
    ensures forall c :: c in rest ==> c in ranked
  {
    if |ranked| < 2 then [] else ranked[1..]
  }

  /** The competitors of one group that another one beats. */
  function OmittedWith(cards: Projections, key: GroupKey): set<string> {
    set id | id in cards && Competes(cards[id]) && KeyOf(cards[id]) == key && Beaten(cards, id)
  }

  /** Skipping the first of the ranked competitors of a group omits exactly those of
    * them that another one beats. */
  lemma SkipFirst(cards: Projections, key: GroupKey, group: seq<Card>)
    requires Filed(cards) && IsGroup(cards, cards.Keys, key, group)
    ensures Ids(Skipped(SortRanked(EligibleOf(group)))) == OmittedWith(cards, key)
  {
    hide Before, KeyOf, Competes, Beaten, Ranked, Distinct, Skipped, EligibleOf, SortRanked;
    var ranked := SortRanked(EligibleOf(group));
    Competitors(cards, key, group);
    forall id | id in cards
      ensures id in Ids(Skipped(ranked)) <==> id in OmittedWith(cards, key)
    {
      if cards[id] in ranked {
        Rank(cards, key, ranked, id);
      }
    }
  }

  lemma Competitors(cards: Projections, key: GroupKey, group: seq<Card>)
    requires Filed(cards) && IsGroup(cards, cards.Keys, key, group)
    ensures var ranked := SortRanked(EligibleOf(group));
      && (forall other :: other in cards ==>
            (cards[other] in ranked <==> Competes(cards[other]) && KeyOf(cards[other]) == key))
      && (forall c :: c in ranked ==> c.id in cards && cards[c.id] == c)
      && Ranked(ranked)
  {
    hide Before, KeyOf, Eligible, Ranked, Distinct, InFamily;
  }

  lemma Rank(cards: Projections, key: GroupKey, ranked: seq<Card>, id: string)
    requires Filed(cards) && Ranked(ranked) && id in cards && cards[id] in ranked && KeyOf(cards[id]) == key
    requires forall other :: other in cards ==>
      (cards[other] in ranked <==> Competes(cards[other]) && KeyOf(cards[other]) == key)
    requires forall c :: c in ranked ==> c.id in cards && cards[c.id] == c
    ensures Beaten(cards, id) <==> cards[id] in Skipped(ranked)
  {
    hide Before, KeyOf, Competes;
    var j :| 0 <= j < |ranked| && ranked[j] == cards[id];
    if j > 0 {
      assert Before(ranked[0], ranked[j]) && ranked[0] in ranked;
      assert ranked[1..][j - 1] == cards[id];
    }
    if Beaten(cards, id) {
      var other :| other in cards && Competes(cards[other]) && KeyOf(cards[other]) == key &&
        Before(cards[other], cards[id]);
      var i :| 0 <= i < |ranked| && ranked[i] == cards[other];
      BeforeIsTotal(ranked[i], ranked[j]);
    }
    if |ranked| >= 2 && cards[id] in ranked[1..] {
      var i :| 0 <= i < |ranked| - 1 && ranked[1..][i] == cards[id];
      assert Before(ranked[0], ranked[i + 1]);
      BeforeIsTotal(ranked[0], ranked[0]);
    }
  }

  ghost predicate Grouped(cards: Projections, ids: set<string>, byKey: map<GroupKey, seq<Card>>) {
    (forall key :: key in byKey ==> IsGroup(cards, ids, key, byKey[key])) &&
    (forall id :: id in ids && id in cards && InFamily(cards[id]) ==> KeyOf(cards[id]) in byKey)
  }

  lemma GroupedNext(cards: Projections, ids: set<string>, byKey: map<GroupKey, seq<Card>>, id: string)
    requires Filed(cards) && id in cards && id !in ids && Grouped(cards, ids, byKey)
    ensures !InFamily(cards[id]) ==> Grouped(cards, ids + {id}, byKey)
    ensures InFamily(cards[id]) ==>
      var key := KeyOf(cards[id]);
      Grouped(cards, ids + {id}, byKey[key := (if key in byKey then byKey[key] else []) + [cards[id]]])
  {
    hide KeyOf, InFamily;
    var key := KeyOf(cards[id]);
    forall k | k in byKey && k != key
      ensures IsGroup(cards, ids + {id}, k, byKey[k])
    {}
    if InFamily(cards[id]) {
      GroupGrows(cards, ids, key, if key in byKey then byKey[key] else [], id);
    } else if key in byKey {
      assert IsGroup(cards, ids, key, byKey[key]);
    }
  }

  lemma GroupGrows(cards: Projections, ids: set<string>, key: GroupKey, group: seq<Card>, id: string)
    requires Filed(cards) && id in cards && id !in ids && InFamily(cards[id]) && KeyOf(cards[id]) == key
    requires IsGroup(cards, ids, key, group) || (group == [] && forall other :: other in ids && other in cards ==>
               !(InFamily(cards[other]) && KeyOf(cards[other]) == key))
    ensures IsGroup(cards, ids + {id}, key, group + [cards[id]])
  {
    hide KeyOf, InFamily;
    assert IsGroup(cards, ids, key, group);
    var card := cards[id];
    assert forall c :: c in group ==> c.id != id;
    assert forall c :: c in group + [card] <==> c in group || c == card;
  }

  /** The omitted cards of some of the groups. */
  ghost function OmittedAmong(cards: Projections, keys: set<GroupKey>): set<string> {
    set id | id in cards && Competes(cards[id]) && KeyOf(cards[id]) in keys && Beaten(cards, id)
  }

  lemma OmittedMore(cards: Projections, keys: set<GroupKey>, key: GroupKey)
    ensures OmittedAmong(cards, keys + {key}) == OmittedAmong(cards, keys) + OmittedWith(cards, key)
  {
    hide KeyOf, Beaten, Competes;
  }

  lemma OmittedInAll(cards: Projections, byKey: map<GroupKey, seq<Card>>)
    requires Grouped(cards, cards.Keys, byKey)
    ensures OmittedAmong(cards, byKey.Keys) == Omitted(cards)
  {
    hide KeyOf, Beaten, IsGroup, Eligible;
  }

  lemma GroupIn(cards: Projections, byKey: map<GroupKey, seq<Card>>, key: GroupKey)
    requires Filed(cards) && Grouped(cards, cards.Keys, byKey) && key in byKey
    ensures IsGroup(cards, cards.Keys, key, byKey[key]) && Distinct(byKey[key])
  {
    hide KeyOf, InFamily;
  }

  /** Grouping the family members, then omitting all ranked competitors but the first. */
  method TargetFeatureRepetitionOmittedIds(cards: Projections) returns (omitted: set<string>)
    requires Filed(cards)
    ensures omitted == Omitted(cards)
  {
    hide KeyOf, Eligible, Before, Beaten, IsGroup, Grouped, OmittedAmong, OmittedWith, Omitted, EligibleOf,
      SortRanked, Ranked, Filed, Distinct, Ids;
    var byKey: map<GroupKey, seq<Card>> := map[];
    var todo := cards.Keys;
    GroupedAtFirst(cards);
    while todo != {}
      invariant todo <= cards.Keys && Grouped(cards, cards.Keys - todo, byKey)
      decreases todo
    {
      var id :| id in todo;
      var card := cards[id];
      GroupedNext(cards, cards.Keys - todo, byKey, id);
      assert cards.Keys - (todo - {id}) == cards.Keys - todo + {id};
      todo := todo - {id};
      if card.operationFamily != "target_feature" {
        continue;
      }
      var key := KeyOf(card);
      byKey := byKey[key := (if key in byKey then byKey[key] else []) + [card]];
    }
    omitted := {};
    var keys := byKey.Keys;
    assert cards.Keys - {} == cards.Keys;
    OmittedInNone(cards);
    while keys != {}
      invariant keys <= byKey.Keys && omitted == OmittedAmong(cards, byKey.Keys - keys)
      decreases keys
    {
      var key :| key in keys;
      GroupIn(cards, byKey, key);
      SkipFirst(cards, key, byKey[key]);
      OmittedMore(cards, byKey.Keys - keys, key);
      assert byKey.Keys - (keys - {key}) == byKey.Keys - keys + {key};
      keys := keys - {key};
      var eligible := EligibleOf(byKey[key]);
      EligibleDistinct(byKey[key]);
      ghost var before := omitted;
      if |eligible| < 2 {
        NoIds();
        continue;
      }
      var ranked := SortRanked(eligible);
      NoIds();
      assert ranked[1..1] == [];
      for i := 1 to |ranked|
        invariant omitted == before + Ids(ranked[1..i])
      {
        IdsNext(ranked, i);
        omitted := omitted + {ranked[i].id};
      }
      assert ranked[1..|ranked|] == ranked[1..];
    }
    OmittedInAll(cards, byKey);
    assert byKey.Keys - {} == byKey.Keys;
  }

  lemma NoIds()
    ensures Ids([]) == {}
  {}

  lemma IdsNext(ranked: seq<Card>, i: nat)
    requires 1 <= i < |ranked|
    ensures Ids(ranked[1..i + 1]) == Ids(ranked[1..i]) + {ranked[i].id}
  {
    assert ranked[1..i + 1] == ranked[1..i] + [ranked[i]];
  }

  lemma EligibleDistinct(group: seq<Card>)
    requires Distinct(group)
    ensures Distinct(EligibleOf(group)) && |SortRanked(EligibleOf(group))| == |EligibleOf(group)|
  {}

  lemma GroupedAtFirst(cards: Projections)
    ensures Grouped(cards, cards.Keys - cards.Keys, map[])
  {}

  lemma OmittedInNone(cards: Projections)
    ensures forall keys: set<GroupKey> :: OmittedAmong(cards, keys - keys) == {}
  {}

  // ---------- one representative per group ----------

  /** The competing members of a group. */
  ghost function Members(cards: Projections, key: GroupKey): set<string> {
    set id | id in cards && Competes(cards[id]) && KeyOf(cards[id]) == key
  }

  /** In every group with competing members all of them are omitted but one, and that
    * one comes before each of the others in rank, then id. */
  lemma OneSurvivor(cards: Projections, key: GroupKey) returns (survivor: string)
    requires Filed(cards) && Members(cards, key) != {}
    ensures survivor in Members(cards, key)
    ensures forall id :: id in Members(cards, key) && id != survivor ==> Before(cards[survivor], cards[id])
    ensures Members(cards, key) * Omitted(cards) == Members(cards, key) - {survivor}
    ensures |Members(cards, key) * Omitted(cards)| == |Members(cards, key)| - 1
  {
    hide Before, KeyOf, Competes;
    var members := Members(cards, key);
    survivor := Least(cards, members);
    forall id | id in members
      ensures id in Omitted(cards) <==> id != survivor
    {
      if id in Omitted(cards) && id == survivor {
        var other :| other in cards && Competes(cards[other]) && KeyOf(cards[other]) == KeyOf(cards[id]) &&
          Before(cards[other], cards[id]);
        assert other in members;
        BeforeIsTotal(cards[other], cards[id]);
      }
    }
    assert members * Omitted(cards) == members - {survivor};
  }

  lemma Least(cards: Projections, ids: set<string>) returns (least: string)
    requires Filed(cards) && ids != {} && ids <= cards.Keys
    ensures least in ids && forall id :: id in ids && id != least ==> Before(cards[least], cards[id])
    decreases ids
  {
    hide Before;
    var id :| id in ids;
    var rest := ids - {id};
    assert forall x :: x in ids ==> x == id || x in rest;
    if rest == {} {
      least := id;
    } else {
      least := Least(cards, rest);
      BeforeIsTotal(cards[id], cards[least]);
      if Before(cards[id], cards[least]) {
        forall other | other in rest && other != least
          ensures Before(cards[id], cards[other])
        {
          BeforeIsTransitive(cards[id], cards[least], cards[other]);
        }
        least := id;
      }
    }
  }

  /** No card outside the family and no ineligible card is ever omitted, and an omitted
    * card always has a better ranked competitor that is not omitted. */
  lemma OmittedHasRepresentative(cards: Projections, id: string) returns (representative: string)
    requires Filed(cards) && id in Omitted(cards)
    ensures InFamily(cards[id]) && Eligible(cards[id])
    ensures representative in cards && representative !in Omitted(cards) && Competes(cards[representative])
    ensures KeyOf(cards[representative]) == KeyOf(cards[id]) && Before(cards[representative], cards[id])
  {
    hide Before, KeyOf, Eligible, InFamily;
    var key := KeyOf(cards[id]);
    assert id in Members(cards, key);
    representative := OneSurvivor(cards, key);
    assert representative !in Members(cards, key) * Omitted(cards);
  }
}
