/** The not-selected histograms of the usefulness telemetry:
  * xtask/src/advisory_artifacts.rs, lines 1572-1597. */
module Telemetry {
  import opened Wrappers
  import opened Text
  import opened Lists
  import opened RustText
  import opened CommentPlan

  /** What the histograms read of a not_selected entry. */
  datatype Skipped = Skipped(reasonCode: string, className: string)

  datatype TelemetryError = BlankField

  type Histogram = map<string, nat>

  function ClassKey(s: Skipped): string {
    s.reasonCode + "/" + s.className
  }

  function ReasonKey(s: Skipped): string {
    s.reasonCode
  }

  function Bump(h: Histogram, key: string): (r: Histogram)
    ensures r.Keys == h.Keys + {key}
  {
    h[key := (if key in h then h[key] else 0) + 1]
  }

  function Tally(keys: seq<string>): Histogram {
    if keys == [] then map[] else Bump(Tally(keys[..|keys| - 1]), keys[|keys| - 1])
  }

  /** Neither field is blank. */
  predicate Complete(s: Skipped) {
    !AllWhitespace(s.reasonCode) && !AllWhitespace(s.className)
  }

  method NotSelectedHistograms(entries: seq<Skipped>)
    returns (r: Result<(Histogram, Histogram), TelemetryError>)
    ensures r.Ok? <==> forall i :: 0 <= i < |entries| ==> Complete(entries[i])
    ensures r.Ok? ==> r.value == (Tally(Map(ReasonKey, entries)), Tally(Map(ClassKey, entries)))
  {
    hide Tally, Bump;
    var reason: Histogram, class_: Histogram := map[], map[];
    NoTally();
    for i := 0 to |entries|
      invariant forall j :: 0 <= j < i ==> Complete(entries[j])
      invariant reason == Tally(Map(ReasonKey, entries[..i])) && class_ == Tally(Map(ClassKey, entries[..i]))
    {
      var e := entries[i];
      if AllWhitespace(e.reasonCode) || AllWhitespace(e.className) {
        return Err(BlankField);
      }
      TallyNext(ReasonKey, entries, i);
      TallyNext(ClassKey, entries, i);
      reason := Bump(reason, e.reasonCode);
      class_ := Bump(class_, e.reasonCode + "/" + e.className);
    }
    assert entries[..|entries|] == entries;
    r := Ok((reason, class_));
  }

  lemma NoTally()
    ensures Tally([]) == map[]
  {}

  lemma TallyNext(f: Skipped -> string, entries: seq<Skipped>, i: nat)
    requires i < |entries|
    ensures Tally(Map(f, entries[..i + 1])) == Bump(Tally(Map(f, entries[..i])), f(entries[i]))
  {
    var more := Map(f, entries[..i + 1]);
    assert more[..i] == Map(f, entries[..i]) && more[i] == f(entries[i]);
  }

  // ---------- sums ----------

  ghost function Sum(h: Histogram, keys: set<string>): nat {
    if keys == {} then 0
    else
      var k :| k in keys;
      (if k in h then h[k] else 0) + Sum(h, keys - {k})
  }

  /** The sum does not depend on the order in which the keys are taken. */
  lemma {:induction false} SumTakes(h: Histogram, keys: set<string>, key: string)
    requires key in keys
    ensures Sum(h, keys) == (if key in h then h[key] else 0) + Sum(h, keys - {key})
    decreases keys
  {
    var k :| k in keys && Sum(h, keys) == (if k in h then h[k] else 0) + Sum(h, keys - {k});
    if k != key {
      SumTakes(h, keys - {k}, key);
      SumTakes(h, keys - {key}, k);
      assert keys - {k} - {key} == keys - {key} - {k};
    }
  }

  lemma {:induction false} SumUntouched(h: Histogram, keys: set<string>, key: string)
    requires key !in keys
    ensures Sum(Bump(h, key), keys) == Sum(h, keys)
    decreases keys
  {
    if keys != {} {
      var k :| k in keys;
      SumTakes(h, keys, k);
      SumTakes(Bump(h, key), keys, k);
      SumUntouched(h, keys - {k}, key);
    }
  }

  lemma SumBumped(h: Histogram, keys: set<string>, key: string)
    ensures Sum(Bump(h, key), keys) == Sum(h, keys) + if key in keys then 1 else 0
  {
    if key in keys {
      SumTakes(h, keys, key);
      SumTakes(Bump(h, key), keys, key);
      SumUntouched(h, keys - {key}, key);
    } else {
      SumUntouched(h, keys, key);
    }
  }

  lemma {:induction false} SumNothing(keys: set<string>)
    ensures Sum(map[], keys) == 0
    decreases keys
  {
    if keys != {} {
      var k :| k in keys;
      SumTakes(map[], keys, k);
      SumNothing(keys - {k});
    }
  }

  /** How many of the keys in the list belong to the set. */
  function CountOf(list: seq<string>, keys: set<string>): nat {
    if list == [] then 0
    else CountOf(list[..|list| - 1], keys) + if list[|list| - 1] in keys then 1 else 0
  }

  lemma {:induction false} TallySums(list: seq<string>, keys: set<string>)
    ensures Sum(Tally(list), keys) == CountOf(list, keys)
    ensures Tally(list).Keys == set k | k in list
  {
    if list == [] {
      SumNothing(keys);
    } else {
      var n := |list| - 1;
      TallySums(list[..n], keys);
      SumBumped(Tally(list[..n]), keys, list[n]);
      assert forall k :: k in list <==> k in list[..n] || k == list[n];
    }
  }

  lemma {:induction false} CountAll(list: seq<string>, keys: set<string>)
    requires forall k :: k in list ==> k in keys
    ensures CountOf(list, keys) == |list|
  {
    if list != [] {
      var n := |list| - 1;
      assert list[n] in list;
      assert forall k :: k in list[..n] ==> k in list;
      CountAll(list[..n], keys);
    }
  }

  /** The reason histogram adds up to the number of entries. */
  lemma ReasonsAddUp(entries: seq<Skipped>)
    ensures var h := Tally(Map(ReasonKey, entries)); Sum(h, h.Keys) == |entries|
  {
    var list := Map(ReasonKey, entries);
    TallySums(list, Tally(list).Keys);
    CountAll(list, Tally(list).Keys);
  }

  /** The keys of the class histogram that start with the reason code and a slash. */
  ghost function KeysOf(h: Histogram, reasonCode: string): set<string> {
    set k | k in h && OfReason(k, reasonCode)
  }

  predicate OfReason(key: string, reasonCode: string) {
    var cut := SplitOnce(key, '/');
    cut.Some? && cut.value.0 == reasonCode
  }

  /** The reason histogram is the marginal of the class histogram: each reason's count is
    * the sum of the counts filed under that reason. */
  lemma ReasonIsMarginal(entries: seq<Skipped>, reasonCode: string)
    requires forall i :: 0 <= i < |entries| ==> '/' !in entries[i].reasonCode
    requires reasonCode in Tally(Map(ReasonKey, entries))
    ensures var classes := Tally(Map(ClassKey, entries));
      Tally(Map(ReasonKey, entries))[reasonCode] == Sum(classes, KeysOf(classes, reasonCode))
  {
    hide Tally, Map;
    var reasons, list := Map(ReasonKey, entries), Map(ClassKey, entries);
    var keys := KeysOf(Tally(list), reasonCode);
    TallySums(list, keys);
    TallySums(reasons, {reasonCode});
    SumTakes(Tally(reasons), {reasonCode}, reasonCode);
    assert {reasonCode} - {reasonCode} == {};
    SameCounts(entries, reasonCode, keys);
  }

  lemma {:induction false} SameCounts(entries: seq<Skipped>, reasonCode: string, keys: set<string>)
    requires forall i :: 0 <= i < |entries| ==> '/' !in entries[i].reasonCode
    requires forall i :: 0 <= i < |entries| ==>
      (ClassKey(entries[i]) in keys <==> OfReason(ClassKey(entries[i]), reasonCode))
    ensures CountOf(Map(ClassKey, entries), keys) == CountOf(Map(ReasonKey, entries), {reasonCode})
  {
    if entries != [] {
      var n := |entries| - 1;
      SameCounts(entries[..n], reasonCode, keys);
      assert Map(ClassKey, entries)[..n] == Map(ClassKey, entries[..n]);
      assert Map(ReasonKey, entries)[..n] == Map(ReasonKey, entries[..n]);
      var e := entries[n];
      assert ClassKey(e) == e.reasonCode + ['/'] + e.className;
      SplitOnceOf(e.reasonCode, '/', e.className);
    }
  }

  // ---------- for accepted plans ----------

  function CodeName(code: Code): (name: string)
    ensures '/' !in name && name != ""
  {
    match code
    case OutsideHunk => "outside_changed_hunk"
    case HumanDeepReviewOnly => "human_deep_review_only"
    case LowerRelevance => "lower_relevance"
    case CoveredBySelectedFamilyObligation => "covered_by_selected_family_obligation"
    case CoveredBySpecificOperationCard => "covered_by_specific_operation_card"
    case BudgetExhausted => "budget_exhausted"
    case NotSelected => "not_selected_by_policy"
    case GroupedRepetition => "grouped_repetition"
  }

  function SkippedOf(m: Manifest): Entry -> Skipped {
    (e: Entry) => Skipped(if e.code.Some? then CodeName(e.code.value) else "",
                          if e.cardId in m.cards then m.cards[e.cardId].className else "")
  }

  /** For an accepted plan the reason histogram adds up to the summary's not-selected
    * count and is the marginal of the class histogram. */
  lemma AcceptedHistograms(m: Manifest, plan: Plan, reasonCode: string)
    requires Acceptable(m, plan)
    ensures var entries := Map(SkippedOf(m), plan.notSelected);
      var reasons, classes := Tally(Map(ReasonKey, entries)), Tally(Map(ClassKey, entries));
      && Sum(reasons, reasons.Keys) == plan.notSelectedCount
      && (reasonCode in reasons ==> reasons[reasonCode] == Sum(classes, KeysOf(classes, reasonCode)))
  {
    hide Tally, CommentsOk, EntryOk, NoDup, CodeName, Sum;
    var entries := Map(SkippedOf(m), plan.notSelected);
    forall i | 0 <= i < |entries|
      ensures '/' !in entries[i].reasonCode
    {
      assert entries[i] == SkippedOf(m)(plan.notSelected[i]);
    }
    ReasonsAddUp(entries);
    if reasonCode in Tally(Map(ReasonKey, entries)) {
      ReasonIsMarginal(entries, reasonCode);
    }
  }

  // ---------- what the numbers count ----------

  /** The name under which a code is reported. */
  predicate IsNamed(code: Code, name: string) {
    match code
    case OutsideHunk => name == "outside_changed_hunk"
    case HumanDeepReviewOnly => name == "human_deep_review_only"
    case LowerRelevance => name == "lower_relevance"
    case CoveredBySelectedFamilyObligation => name == "covered_by_selected_family_obligation"
    case CoveredBySpecificOperationCard => name == "covered_by_specific_operation_card"
    case BudgetExhausted => name == "budget_exhausted"
    case NotSelected => name == "not_selected_by_policy"
    case GroupedRepetition => name == "grouped_repetition"
  }

  lemma NamesMean(code: Code, name: string)
    ensures CodeName(code) == name <==> IsNamed(code, name)
  {}

  /** No two codes share a name: the first characters and lengths tell them apart. */
  lemma NamesDiffer(a: Code, b: Code)
    requires CodeName(a) == CodeName(b)
    ensures a == b
  {}

  function NumberUnder(h: Histogram, key: string): nat {
    if key in h then h[key] else 0
  }

  /** Where the key stands in the list. */
  function Places(list: seq<string>, key: string): set<int> {
    set i | 0 <= i < |list| && list[i] == key
  }

  lemma NoPlaces(key: string)
    ensures Places([], key) == {}
  {}

  /** A histogram shows, for each key, at how many places of the list it stands. */
  lemma {:induction false} TallyCounts(list: seq<string>, key: string)
    ensures NumberUnder(Tally(list), key) == |Places(list, key)|
  {
    if list == [] {
      NoPlaces(key);
    } else {
      var n := |list| - 1;
      TallyCounts(list[..n], key);
      assert Places(list, key) == Places(list[..n], key) + if list[n] == key then {n} else {};
    }
  }

  /** The left-out entries that carry the code. */
  function Carriers(plan: Plan, code: Code): set<int> {
    set i | 0 <= i < |plan.notSelected| && plan.notSelected[i].code == Some(code)
  }

  /** Those of them whose card is of the class. */
  function CarriersOf(m: Manifest, plan: Plan, code: Code, className: string): set<int> {
    set i | i in Carriers(plan, code) && plan.notSelected[i].cardId in m.cards
            && m.cards[plan.notSelected[i].cardId].className == className
  }

  /** In the histograms of an accepted plan, the number under a code's name is that of the
    * left-out cards that carry the code, and the number under its name and a class that of
    * those whose card is of the class. */
  lemma HistogramsCountCodes(m: Manifest, plan: Plan, code: Code, name: string, className: string)
    requires Acceptable(m, plan) && IsNamed(code, name)
    ensures var entries := Map(SkippedOf(m), plan.notSelected);
      && NumberUnder(Tally(Map(ReasonKey, entries)), name) == |Carriers(plan, code)|
      && NumberUnder(Tally(Map(ClassKey, entries)), name + "/" + className) == |CarriersOf(m, plan, code, className)|
  {
    hide Tally, CommentsOk, NoDup, CodeName, Acceptable, EntryOk, SelectionOf, IsNamed;
    var entries := Map(SkippedOf(m), plan.notSelected);
    var reasons, classes := Map(ReasonKey, entries), Map(ClassKey, entries);
    TallyCounts(reasons, name);
    TallyCounts(classes, name + "/" + className);
    NamesMean(code, name);
    forall i | 0 <= i < |plan.notSelected|
      ensures reasons[i] == name <==> i in Carriers(plan, code)
      ensures classes[i] == name + "/" + className <==> i in CarriersOf(m, plan, code, className)
    {
      EntryNamed(m, plan, i, code, name, className);
    }
    assert Places(reasons, name) == Carriers(plan, code);
    assert Places(classes, name + "/" + className) == CarriersOf(m, plan, code, className);
  }

  lemma EntryNamed(m: Manifest, plan: Plan, i: nat, code: Code, name: string, className: string)
    requires Acceptable(m, plan) && CodeName(code) == name && i < |plan.notSelected|
    ensures var e := SkippedOf(m)(plan.notSelected[i]);
      && (ReasonKey(e) == name <==> i in Carriers(plan, code))
      && (ClassKey(e) == name + "/" + className <==> i in CarriersOf(m, plan, code, className))
  {
    hide CommentsOk, NoDup, CodeName, Acceptable, SelectionOf, PairOk;
    EntryIsOk(m, plan, plan.notSelected[i]);
    var mine := plan.notSelected[i].code.value;
    if CodeName(mine) == CodeName(code) {
      NamesDiffer(mine, code);
    }
    SplitOnceOf(CodeName(mine), '/', m.cards[plan.notSelected[i].cardId].className);
    SplitOnceOf(name, '/', className);
  }
}
