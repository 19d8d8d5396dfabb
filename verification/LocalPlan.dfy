/** The conservative local planner and its receipt: xtask/src/check_local.rs. */
module LocalPlan {
  import opened Wrappers
  import opened Text
  import opened RustText
  import opened StringSets
  import opened Lists

  // ---------- categories ----------

  datatype Category = Docs | Fixtures | Calibration | Policy | Workflow | Corpus | Fuzz | ProductRust | Xtask | Unknown

  /** The categories in their declared order. */
  const ALL_CATEGORIES: seq<Category> :=
    [Docs, Fixtures, Calibration, Policy, Workflow, Corpus, Fuzz, ProductRust, Xtask, Unknown]

  predicate ForcesFull(c: Category) {
    c == ProductRust || c == Xtask || c == Unknown
  }

  function CategorizePath(rawPath: string): Category {
    var path := Trim(rawPath);
    if StartsWith(path, "docs/dogfood/") then Corpus
    else if path == "policy/calibration.toml" then Calibration
    else if StartsWith(path, "fixtures/") then Fixtures
    else if StartsWith(path, "policy/") then Policy
    else if StartsWith(path, ".github/") then Workflow
    else if StartsWith(path, "fuzz/") then Fuzz
    else if StartsWith(path, "xtask/") then Xtask
    else if StartsWith(path, "crates/") && EndsWith(path, ".rs") then ProductRust
    else if StartsWith(path, "docs/") || path in ["README.md", "CHANGELOG.md", "AGENTS.md", "CLAUDE.md"] then Docs
    else Unknown
  }

  function Categories(paths: set<string>): set<Category> {
    set p | p in paths :: CategorizePath(p)
  }

  /** Those of the categories in order that are present. */
  function Keep(order: seq<Category>, present: set<Category>): (r: seq<Category>)
    ensures forall c :: c in r <==> c in order && c in present
  {
    if order == [] then []
    else (if order[0] in present then [order[0]] else []) + Keep(order[1..], present)
  }

  // ---------- the catalog ----------

  datatype CheckSpec = CheckSpec(id: string, always: bool, triggers: seq<Category>)

  const CATALOG: seq<CheckSpec> := [
    CheckSpec("docs", true, []),
    CheckSpec("policy", true, []),
    CheckSpec("support-tiers", false, [Docs]),
    CheckSpec("fixtures", false, [Fixtures, Calibration]),
    CheckSpec("calibration", false, [Fixtures, Calibration]),
    CheckSpec("fixture-surface-parity", false, [Fixtures, Calibration]),
    CheckSpec("surface-determinism", false, [Fixtures, Calibration]),
    CheckSpec("real-pr-corpus", false, [Corpus]),
    CheckSpec("corpus-partitions", false, [Corpus]),
    CheckSpec("seam-batch", false, [Docs, Corpus]),
    CheckSpec("evidence-loss-challenges", false, [Corpus]),
    CheckSpec("external-pilots", false, [Corpus]),
    CheckSpec("dogfood", false, [Corpus]),
    CheckSpec("fuzz-manual-harness", false, [Fuzz]),
    CheckSpec("fuzz-tracked-artifacts", false, [Fuzz]),
    CheckSpec("self-unsafe", true, [])]

  // ---------- the plan ----------

  datatype Reason =
    | AlwaysRequired
    | DegradedDiff
    | EmptyDiff
    | UnsafeCategories(forced: seq<Category>)
    | ChangedCategory(trigger: Category)
    | NotSelected(present: seq<Category>)

  datatype PlannedCheck = PlannedCheck(spec: CheckSpec, selected: bool, reason: Reason)

  datatype Plan = Plan(categories: seq<Category>, conservativeFull: bool, checks: seq<PlannedCheck>)

  function FirstTrigger(triggers: seq<Category>, present: seq<Category>): (r: Option<Category>)
    ensures r.Some? ==> r.value in triggers && r.value in present
    ensures r.None? ==> forall c :: c in triggers ==> c !in present
  {
    if triggers == [] then None
    else if triggers[0] in present then Some(triggers[0])
    else FirstTrigger(triggers[1..], present)
  }

  function Decide(spec: CheckSpec, present: seq<Category>, conservativeFull: bool, fullReason: Reason): PlannedCheck {
    if spec.always then PlannedCheck(spec, true, AlwaysRequired)
    else if conservativeFull then PlannedCheck(spec, true, fullReason)
    else
      match FirstTrigger(spec.triggers, present)
      case Some(trigger) => PlannedCheck(spec, true, ChangedCategory(trigger))
      case None => PlannedCheck(spec, false, NotSelected(present))
  }

  predicate Unsafe(paths: set<string>) {
    exists p :: p in paths && ForcesFull(CategorizePath(p))
  }

  /** The plan as a matter of the set of changed paths and the degraded flag. */
  function PlanOf(specs: seq<CheckSpec>, paths: set<string>, degraded: bool): Plan {
    var present := Keep(ALL_CATEGORIES, Categories(paths));
    var conservativeFull := degraded || paths == {} || Unsafe(paths);
    var fullReason :=
      if degraded then DegradedDiff else if paths == {} then EmptyDiff
      else UnsafeCategories(Keep([ProductRust, Xtask, Unknown], Categories(paths)));
    Plan(present, conservativeFull, Map(spec => Decide(spec, present, conservativeFull, fullReason), specs))
  }

  function Forced(present: seq<Category>): seq<Category> {
    if present == [] then []
    else (if ForcesFull(present[0]) then [present[0]] else []) + Forced(present[1..])
  }

  lemma {:induction false} ForcedOfKept(order: seq<Category>, present: set<Category>)
    ensures Forced(Keep(order, present)) == Keep(Forced(order), present)
  {
    if order != [] {
      ForcedOfKept(order[1..], present);
      ForcedAfter(order[0], Keep(order[1..], present));
      ForcedAfter(order[0], order[1..]);
      assert [order[0]] + order[1..] == order;
      if ForcesFull(order[0]) {
        assert ([order[0]] + Forced(order[1..]))[1..] == Forced(order[1..]);
      } else {
        assert [] + Forced(order[1..]) == Forced(order[1..]);
      }
      assert [] + Keep(order[1..], present) == Keep(order[1..], present);
    }
  }

  lemma ForcedAfter(c: Category, rest: seq<Category>)
    ensures Forced([c] + rest) == (if ForcesFull(c) then [c] else []) + Forced(rest)
  {
    assert ([c] + rest)[1..] == rest;
  }

  function Rank(c: Category): nat {
    match c
    case Docs => 0 case Fixtures => 1 case Calibration => 2 case Policy => 3 case Workflow => 4
    case Corpus => 5 case Fuzz => 6 case ProductRust => 7 case Xtask => 8 case Unknown => 9
  }

  predicate Ascending(s: seq<Category>) {
    forall i, j :: 0 <= i < j < |s| ==> Rank(s[i]) < Rank(s[j])
  }

  lemma {:induction false} KeepAscends(order: seq<Category>, present: set<Category>)
    requires Ascending(order)
    ensures Ascending(Keep(order, present))
  {
    hide Rank;
    if order != [] {
      assert Ascending(order[1..]);
      KeepAscends(order[1..], present);
      var rest := Keep(order[1..], present);
      forall j | 0 <= j < |rest|
        ensures Rank(order[0]) < Rank(rest[j])
      {
        assert rest[j] in order[1..];
      }
    }
  }

  lemma AllCategories()
    ensures Ascending(ALL_CATEGORIES) && forall c: Category :: c in ALL_CATEGORIES
  {
    forall c: Category
      ensures c in ALL_CATEGORIES
    {
      assert ALL_CATEGORIES[Rank(c)] == c;
    }
  }

  /** Keeping the present categories in declared order is what sorting a duplicate-free list
    * of them does. */
  lemma SortedCategories(found: seq<Category>)
    requires NoDup(found)
    ensures Ascending(Keep(ALL_CATEGORIES, Elements(found)))
    ensures multiset(Keep(ALL_CATEGORIES, Elements(found))) == multiset(found)
  {
    hide Rank, ALL_CATEGORIES;
    AllCategories();
    KeepAscends(ALL_CATEGORIES, Elements(found));
    var kept := Keep(ALL_CATEGORIES, Elements(found));
    AscendingNoDup(kept);
    NoDupCounts(kept);
    NoDupCounts(found);
    forall c
      ensures multiset(kept)[c] == multiset(found)[c]
    {
      assert c in kept <==> c in found;
      assert c in multiset(kept) <==> c in kept;
      assert c in multiset(found) <==> c in found;
    }
  }

  lemma AscendingNoDup(s: seq<Category>)
    requires Ascending(s)
    ensures NoDup(s)
  {
    hide Rank;
  }

  method PlanInner(changedPaths: seq<string>, diffDegraded: bool) returns (plan: Plan)
    ensures plan == PlanOf(CATALOG, Elements(changedPaths), diffDegraded)
  {
    hide CategorizePath, CATALOG, ALL_CATEGORIES, Keep, NoDup, Unsafe;
    var categories: seq<Category> := [];
    NoneYet(changedPaths);
    for i := 0 to |changedPaths|
      invariant Elements(categories) == Categories(Elements(changedPaths[..i])) && NoDup(categories)
    {
      var category := CategorizePath(changedPaths[i]);
      NextPath(changedPaths, i);
      if category !in categories {
        NextCategory(categories, category);
        categories := categories + [category];
      }
    }
    assert changedPaths[..|changedPaths|] == changedPaths;
    ghost var paths := Elements(changedPaths);
    SortedCategories(categories);
    categories := Keep(ALL_CATEGORIES, Elements(categories));
    var emptyDiff := changedPaths == [];
    EmptyPaths(changedPaths);
    var forceCategories := Forced(categories);
    ForcedPresent(paths);
    var conservativeFull := diffDegraded || emptyDiff || forceCategories != [];
    var fullReason :=
      if diffDegraded then DegradedDiff else if emptyDiff then EmptyDiff else UnsafeCategories(forceCategories);
    plan := Plan(categories, conservativeFull, Map(spec => Decide(spec, categories, conservativeFull, fullReason), CATALOG));
    assert plan == PlanOf(CATALOG, paths, diffDegraded) by {
      SameMap(spec => Decide(spec, categories, conservativeFull, fullReason),
              plan.checks, PlanOf(CATALOG, paths, diffDegraded).checks, CATALOG, categories, conservativeFull, fullReason);
    }
  }

  lemma SameMap(
    f: CheckSpec -> PlannedCheck, a: seq<PlannedCheck>, b: seq<PlannedCheck>, specs: seq<CheckSpec>,
    present: seq<Category>, full: bool, reason: Reason)
    requires |a| == |specs| && forall i :: 0 <= i < |specs| ==> a[i] == Decide(specs[i], present, full, reason)
    requires |b| == |specs| && forall i :: 0 <= i < |specs| ==> b[i] == Decide(specs[i], present, full, reason)
    ensures a == b
  {}

  lemma NoneYet(paths: seq<string>)
    ensures Elements<Category>([]) == Categories(Elements(paths[..0])) && NoDup<Category>([])
  {}

  lemma NextPath(paths: seq<string>, i: nat)
    requires i < |paths|
    ensures Categories(Elements(paths[..i + 1])) == Categories(Elements(paths[..i])) + {CategorizePath(paths[i])}
  {
    hide CategorizePath;
    assert paths[..i + 1] == paths[..i] + [paths[i]];
    assert Elements(paths[..i + 1]) == Elements(paths[..i]) + {paths[i]};
  }

  lemma NextCategory(categories: seq<Category>, category: Category)
    requires NoDup(categories) && category !in categories
    ensures NoDup(categories + [category]) && Elements(categories + [category]) == Elements(categories) + {category}
  {}

  lemma EmptyPaths(paths: seq<string>)
    ensures paths == [] <==> Elements(paths) == {}
  {
    assert paths != [] ==> paths[0] in Elements(paths);
  }

  lemma ForcedPresent(paths: set<string>)
    ensures var forced := Forced(Keep(ALL_CATEGORIES, Categories(paths)));
      forced == Keep([ProductRust, Xtask, Unknown], Categories(paths)) && (forced != [] <==> Unsafe(paths))
  {
    hide CategorizePath, Keep, Forced, ALL_CATEGORIES;
    ForcedOfKept(ALL_CATEGORIES, Categories(paths));
    ForcedAll();
    var forced := Keep([ProductRust, Xtask, Unknown], Categories(paths));
    assert forced != [] ==> forced[0] in forced && forced[0] in Categories(paths) && ForcesFull(forced[0]);
    if Unsafe(paths) {
      var p :| p in paths && ForcesFull(CategorizePath(p));
      assert CategorizePath(p) in forced;
    }
  }

  lemma ForcedAll()
    ensures Forced(ALL_CATEGORIES) == [ProductRust, Xtask, Unknown]
  {
    hide Forced;
    HarmlessAll();
    var harmful := [ProductRust, Xtask, Unknown];
    assert ALL_CATEGORIES == [Docs, Fixtures, Calibration, Policy] + ([Workflow, Corpus, Fuzz] + harmful);
    ForcedAppend([Docs, Fixtures, Calibration, Policy], [Workflow, Corpus, Fuzz] + harmful);
    ForcedAppend([Workflow, Corpus, Fuzz], harmful);
  }

  lemma {:induction false} ForcedAppend(a: seq<Category>, b: seq<Category>)
    ensures Forced(a + b) == Forced(a) + Forced(b)
  {
    if a == [] {
      assert a + b == b;
    } else {
      ForcedAfter(a[0], a[1..] + b);
      assert a + b == [a[0]] + (a[1..] + b);
      ForcedAppend(a[1..], b);
    }
  }

  lemma {:induction false} ForcedWhole(s: seq<Category>)
    ensures (forall c :: c in s ==> ForcesFull(c)) ==> Forced(s) == s
    ensures (forall c :: c in s ==> !ForcesFull(c)) ==> Forced(s) == []
  {
    if s != [] {
      ForcedWhole(s[1..]);
      assert s == [s[0]] + s[1..];
    }
  }

  lemma HarmlessAll()
    ensures Forced([Docs, Fixtures, Calibration, Policy]) == [] && Forced([Workflow, Corpus, Fuzz]) == []
    ensures Forced([ProductRust, Xtask, Unknown]) == [ProductRust, Xtask, Unknown]
  {
    hide Forced;
    ForcedWhole([Docs, Fixtures, Calibration, Policy]);
    ForcedWhole([Workflow, Corpus, Fuzz]);
    ForcedWhole([ProductRust, Xtask, Unknown]);
  }

  // ---------- what the plan promises ----------

  /** Why a check must run: always, because the diff cannot be trusted to be complete or
    * harmless, or because it covers a changed category. */
  ghost predicate Needed(spec: CheckSpec, paths: set<string>, degraded: bool) {
    || spec.always || degraded || paths == {}
    || exists p :: p in paths && (ForcesFull(CategorizePath(p)) || CategorizePath(p) in spec.triggers)
  }

  predicate Selects(paths: set<string>, degraded: bool, i: nat)
    requires i < |CATALOG|
  {
    PlanOf(CATALOG, paths, degraded).checks[i].selected
  }

  /** The plan runs exactly the checks that are needed. */
  lemma SelectedExactlyWhenNeeded(paths: set<string>, degraded: bool, i: nat)
    requires i < |CATALOG|
    ensures PlanOf(CATALOG, paths, degraded).checks[i].spec == CATALOG[i]
    ensures Selects(paths, degraded, i) <==> Needed(CATALOG[i], paths, degraded)
  {
    hide CategorizePath, CATALOG, Keep, ALL_CATEGORIES, ForcesFull;
    AllCategories();
    var spec, plan := CATALOG[i], PlanOf(CATALOG, paths, degraded);
    assert forall c :: c in plan.categories <==> c in Categories(paths);
  }

  /** Growing a diff never drops a check, unless the diff was empty. */
  lemma AddingPathsKeepsChecks(paths: set<string>, more: set<string>, degraded: bool, i: nat)
    requires i < |CATALOG| && paths <= more && paths != {}
    ensures Selects(paths, degraded, i) ==> Selects(more, degraded, i)
  {
    hide CATALOG, Selects, CategorizePath;
    SelectedExactlyWhenNeeded(paths, degraded, i);
    SelectedExactlyWhenNeeded(more, degraded, i);
  }

  /** An empty diff is read as an unknown one and selects everything, so its first harmless
    * path does drop checks: a documentation change drops the corpus check. */
  lemma FirstPathDropsChecks(path: string)
    requires CategorizePath(path) == Docs
    ensures Selects({}, false, 7) && !Selects({path}, false, 7)
  {
    CorpusCheck();
    hide CategorizePath, CATALOG, Selects;
    SelectedExactlyWhenNeeded({}, false, 7);
    SelectedExactlyWhenNeeded({path}, false, 7);
  }

  /** When a diff that grows keeps every check: the exception is the empty diff, read as an
    * unknown one, that grows into a known harmless one leaving some check without a trigger. */
  lemma GrowingKeepsExactlyWhen(paths: set<string>, more: set<string>, degraded: bool)
    requires paths <= more
    ensures (forall i: nat :: i < |CATALOG| && Selects(paths, degraded, i) ==> Selects(more, degraded, i))
       <==> paths != {} || degraded || more == {} || Unsafe(more) ||
            forall i: nat :: i < |CATALOG| ==> CATALOG[i].always || Triggered(CATALOG[i], more)
  {
    hide CATALOG, Selects, CategorizePath, ForcesFull;
    forall i: nat | i < |CATALOG|
      ensures Selects(paths, degraded, i) <==> Needed(CATALOG[i], paths, degraded)
      ensures Selects(more, degraded, i) <==> Needed(CATALOG[i], more, degraded)
    {
      SelectedExactlyWhenNeeded(paths, degraded, i);
      SelectedExactlyWhenNeeded(more, degraded, i);
    }
  }

  /** Some changed path has a category that the check covers. */
  predicate Triggered(spec: CheckSpec, paths: set<string>) {
    exists p :: p in paths && CategorizePath(p) in spec.triggers
  }

  lemma CorpusCheck()
    ensures |CATALOG| == 16 && CATALOG[7].triggers == [Corpus] && !CATALOG[7].always
  {}

  /** A degraded, empty or unsafe diff runs the whole catalog. */
  lemma UntrustedDiffRunsEverything(paths: set<string>, degraded: bool, i: nat)
    requires i < |CATALOG| && (degraded || paths == {} || Unsafe(paths))
    ensures Selects(paths, degraded, i) && PlanOf(CATALOG, paths, degraded).conservativeFull
  {
    hide CATALOG, CategorizePath, ForcesFull;
    SelectedExactlyWhenNeeded(paths, degraded, i);
  }

  /** The reason a check carries is a true statement about the diff. */
  ghost predicate ReasonIsTrue(check: PlannedCheck, paths: set<string>, degraded: bool) {
    match check.reason
    case AlwaysRequired => check.selected && check.spec.always
    case DegradedDiff => check.selected && degraded
    case EmptyDiff => check.selected && paths == {}
    case UnsafeCategories(forced) =>
      && check.selected && forced != []
      && forall c :: c in forced <==> ForcesFull(c) && exists p :: p in paths && CategorizePath(p) == c
    case ChangedCategory(trigger) =>
      && check.selected && !Unsafe(paths) && !degraded
      && trigger in check.spec.triggers && exists p :: p in paths && CategorizePath(p) == trigger
    case NotSelected(present) =>
      && !check.selected && !Needed(check.spec, paths, degraded)
      && forall c :: c in present <==> exists p :: p in paths && CategorizePath(p) == c
  }

  lemma ReasonsAreTrue(paths: set<string>, degraded: bool, i: nat)
    requires i < |CATALOG|
    ensures ReasonIsTrue(PlanOf(CATALOG, paths, degraded).checks[i], paths, degraded)
  {
    hide CategorizePath, CATALOG, Keep, ALL_CATEGORIES, Selects;
    AllCategories();
    ForcedPresent(paths);
    SelectedExactlyWhenNeeded(paths, degraded, i);
    SelectsIs(paths, degraded, i);
    var plan := PlanOf(CATALOG, paths, degraded);
    assert forall c :: c in plan.categories <==> c in Categories(paths);
    assert forall c :: ForcesFull(c) <==> c in [ProductRust, Xtask, Unknown];
  }

  lemma SelectsIs(paths: set<string>, degraded: bool, i: nat)
    requires i < |CATALOG|
    ensures Selects(paths, degraded, i) == PlanOf(CATALOG, paths, degraded).checks[i].selected
  {}

  // ---------- the diff ----------

  datatype Diff = Diff(base: string, head: string, changedPaths: seq<string>)

  /** What the git commands answer. */
  type Git = seq<string> -> Result<string, string>

  const HEAD := ["rev-parse", "--short", "HEAD"]
  const ORIGIN_BASE := ["merge-base", "origin/main", "HEAD"]
  const LOCAL_BASE := ["merge-base", "main", "HEAD"]
  const UNTRACKED := ["ls-files", "--others", "--exclude-standard"]
  const CHANGED_SINCE_HEAD := ["diff", "--name-only", "HEAD"]

  function ChangedSince(base: string): seq<string> {
    ["diff", "--no-renames", "--name-only", base]
  }

  function Short(ref: string): seq<string> {
    ["rev-parse", "--short", ref]
  }

  function Answer(answer: Result<string, string>, otherwise: string): string {
    if answer.Ok? then answer.value else otherwise
  }

  function BaseRef(baseArg: Option<string>, git: Git): Option<string> {
    if baseArg.Some? then baseArg
    else if git(ORIGIN_BASE).Ok? then Some(git(ORIGIN_BASE).value)
    else if git(LOCAL_BASE).Ok? then Some(git(LOCAL_BASE).value)
    else None
  }

  /** The paths that one listing names. */
  function Listed(listing: Result<string, string>): set<string> {
    if listing.Err? then {} else NonBlank(Lines(listing.value))
  }

  function NonBlank(lines: seq<string>): set<string> {
    set i | 0 <= i < |lines| && Trim(lines[i]) != "" :: Trim(lines[i])
  }

  /** The listing of changed tracked files that is consulted. */
  function TrackedChanges(baseArg: Option<string>, git: Git): Result<string, string> {
    var base := BaseRef(baseArg, git);
    if base.Some? then git(ChangedSince(base.value)) else git(CHANGED_SINCE_HEAD)
  }

  /** No listed path is blank or has white space at an end. */
  lemma ListedPathsAreTrimmed(listing: Result<string, string>, path: string)
    requires path in Listed(listing)
    ensures path != "" && !IsWhitespace(path[0]) && !IsWhitespace(path[|path| - 1])
  {
    hide IsWhitespace, Trim, Lines;
    var lines := Lines(listing.value);
    var i :| 0 <= i < |lines| && Trim(lines[i]) == path && path != "";
    var front, back := TrimMeans(lines[i]);
  }

  /** Whether something that the set of changed paths depends on could not be determined. */
  predicate Undetermined(baseArg: Option<string>, git: Git) {
    BaseRef(baseArg, git).None? || git(UNTRACKED).Err? || TrackedChanges(baseArg, git).Err?
  }

  method CollectLines(output: string, into: seq<string>) returns (paths: seq<string>)
    requires StrictlySorted(into)
    ensures StrictlySorted(paths) && Elements(paths) == Elements(into) + NonBlank(Lines(output))
  {
    hide Trim, Lines, Insert;
    var lines := Lines(output);
    paths := into;
    assert lines[..0] == [];
    for i := 0 to |lines|
      invariant StrictlySorted(paths) && Elements(paths) == Elements(into) + NonBlank(lines[..i])
    {
      var trimmed := Trim(lines[i]);
      NextLine(lines, i);
      if trimmed != "" {
        InsertElements(trimmed, paths);
        paths := Insert(trimmed, paths);
      }
    }
    assert lines[..|lines|] == lines;
  }

  lemma InsertElements(path: string, paths: seq<string>)
    requires StrictlySorted(paths)
    ensures Elements(Insert(path, paths)) == Elements(paths) + {path}
  {
    hide Insert, StrictlySorted;
  }

  lemma NextLine(lines: seq<string>, i: nat)
    requires i < |lines|
    ensures NonBlank(lines[..i + 1]) == NonBlank(lines[..i]) + (if Trim(lines[i]) == "" then {} else {Trim(lines[i])})
  {
    hide Trim;
    assert forall j :: 0 <= j < i ==> lines[..i + 1][j] == lines[..i][j] == lines[j];
    assert lines[..i + 1][i] == lines[i];
  }

  method ResolveDiffWith(baseArg: Option<string>, git: Git) returns (diff: Diff, degraded: bool)
    ensures degraded == Undetermined(baseArg, git)
    ensures StrictlySorted(diff.changedPaths)
    ensures Elements(diff.changedPaths) == Listed(git(UNTRACKED)) + Listed(TrackedChanges(baseArg, git))
    ensures diff.head == Answer(git(HEAD), "unknown")
    ensures diff.base == match BaseRef(baseArg, git) case Some(base) => Answer(git(Short(base)), base) case None => "unknown"
  {
    hide HEAD, ORIGIN_BASE, LOCAL_BASE, UNTRACKED, CHANGED_SINCE_HEAD, ChangedSince, Short, NonBlank, Lines;
    var head := Answer(git(HEAD), "unknown");
    var baseRef := BaseRef(baseArg, git);
    var paths: seq<string> := [];
    degraded := false;
    match git(UNTRACKED) {
      case Ok(out) => paths := CollectLines(out, paths);
      case Err(_) => degraded := true;
    }
    var baseDisplay;
    match baseRef {
      case Some(base) =>
        match git(ChangedSince(base)) {
          case Ok(out) => paths := CollectLines(out, paths);
          case Err(_) => degraded := true;
        }
        baseDisplay := Answer(git(Short(base)), base);
      case None =>
        degraded := true;
        var changes := git(CHANGED_SINCE_HEAD);
        if changes.Ok? {
          paths := CollectLines(changes.value, paths);
        }
        baseDisplay := "unknown";
    }
    diff := Diff(baseDisplay, head, paths);
  }

  // ---------- the run and its receipt ----------

  datatype Outcome = Outcome(id: string, result: Result<(), string>)

  datatype CheckResult = Pass | Fail(detail: string) | NotExecuted

  datatype ExecutedEntry = ExecutedEntry(name: string, reason: Reason, result: CheckResult)

  datatype SkippedEntry = SkippedEntry(name: string, reason: Reason)

  datatype Receipt = Receipt(
    pass: bool, conservativeFull: bool, base: string, head: string, changedPaths: seq<string>, categories: seq<Category>,
    executed: seq<ExecutedEntry>, skipped: seq<SkippedEntry>, fullGateRequired: bool)

  function FirstLine(message: string): string {
    if Lines(message) == [] then "" else Trim(Lines(message)[0])
  }

  function Reported(result: Result<(), string>): CheckResult {
    match result
    case Ok(_) => Pass
    case Err(message) => Fail(FirstLine(message))
  }

  function FindOutcome(outcomes: seq<Outcome>, id: string): CheckResult {
    if outcomes == [] then NotExecuted
    else if outcomes[0].id == id then Reported(outcomes[0].result)
    else FindOutcome(outcomes[1..], id)
  }

  /** The checks with the decision, in catalog order. */
  function Select(checks: seq<PlannedCheck>, selected: bool): seq<PlannedCheck> {
    if checks == [] then []
    else
      var last := checks[|checks| - 1];
      Select(checks[..|checks| - 1], selected) + (if last.selected == selected then [last] else [])
  }

  function BuildReceipt(diff: Diff, plan: Plan, outcomes: seq<Outcome>): Receipt {
    var executed :=
      Map((c: PlannedCheck) => ExecutedEntry(c.spec.id, c.reason, FindOutcome(outcomes, c.spec.id)), Select(plan.checks, true));
    var skipped := Map((c: PlannedCheck) => SkippedEntry(c.spec.id, c.reason), Select(plan.checks, false));
    Receipt(AllPass(executed), plan.conservativeFull, diff.base, diff.head, diff.changedPaths, plan.categories,
            executed, skipped, true)
  }

  predicate AllPass(executed: seq<ExecutedEntry>) {
    forall i :: 0 <= i < |executed| ==> executed[i].result == Pass
  }

  /** Executed and skipped checks partition the catalog, and each list keeps its order. */
  lemma {:induction false} SelectPartitions(checks: seq<PlannedCheck>, selected: bool) returns (at: seq<nat>)
    ensures |at| == |Select(checks, selected)| && forall i, j :: 0 <= i < j < |at| ==> at[i] < at[j]
    ensures forall k :: 0 <= k < |at| ==> at[k] < |checks| && checks[at[k]] == Select(checks, selected)[k]
    ensures forall i :: 0 <= i < |checks| ==> (checks[i].selected == selected <==> i in at)
  {
    if checks == [] {
      at := [];
    } else {
      var n := |checks| - 1;
      var front := checks[..n];
      var before := SelectPartitions(front, selected);
      assert forall i :: 0 <= i < n ==> front[i] == checks[i];
      assert forall k :: 0 <= k < |before| ==> checks[before[k]] == front[before[k]];
      hide Select;
      SelectLast(checks, selected);
      at := before + (if checks[n].selected == selected then [n] else []);
    }
  }

  lemma SelectLast(checks: seq<PlannedCheck>, selected: bool)
    requires checks != []
    ensures var n := |checks| - 1;
      Select(checks, selected)
      == Select(checks[..n], selected) + (if checks[n].selected == selected then [checks[n]] else [])
  {}

  predicate DistinctIds(checks: seq<PlannedCheck>) {
    forall i, j :: 0 <= i < j < |checks| ==> checks[i].spec.id != checks[j].spec.id
  }

  lemma SelectDistinct(checks: seq<PlannedCheck>, selected: bool)
    requires DistinctIds(checks)
    ensures DistinctIds(Select(checks, selected))
  {
    hide Select;
    var at := SelectPartitions(checks, selected);
    var kept := Select(checks, selected);
    forall i, j | 0 <= i < j < |kept|
      ensures kept[i].spec.id != kept[j].spec.id
    {
      assert at[i] < at[j];
    }
  }

  /** Whether the outcomes are those of the executed checks, one for one and in order. */
  predicate Answers(outcomes: seq<Outcome>, executed: seq<PlannedCheck>) {
    |outcomes| <= |executed| && forall k :: 0 <= k < |outcomes| ==> outcomes[k].id == executed[k].spec.id
  }

  lemma {:induction false} FindNth(outcomes: seq<Outcome>, executed: seq<PlannedCheck>, k: nat)
    requires Answers(outcomes, executed) && DistinctIds(executed) && k < |outcomes|
    ensures FindOutcome(outcomes, executed[k].spec.id) == Reported(outcomes[k].result)
    decreases k
  {
    if k > 0 {
      FindNth(outcomes[1..], executed[1..], k - 1);
    }
  }

  /** The result that a receipt shows for a check is the result of running that check, and
    * the receipt passes exactly when all of them did. */
  lemma ReceiptReportsOutcomes(diff: Diff, plan: Plan, outcomes: seq<Outcome>)
    requires DistinctIds(plan.checks)
    requires Answers(outcomes, Select(plan.checks, true)) && |outcomes| == |Select(plan.checks, true)|
    ensures var r := BuildReceipt(diff, plan, outcomes);
      && |r.executed| == |outcomes|
      && (forall k :: 0 <= k < |outcomes| ==>
            r.executed[k].name == outcomes[k].id && r.executed[k].result == Reported(outcomes[k].result))
      && (r.pass <==> forall k :: 0 <= k < |outcomes| ==> outcomes[k].result.Ok?)
  {
    hide FirstLine, Select, FindOutcome;
    var executed := Select(plan.checks, true);
    SelectDistinct(plan.checks, true);
    forall k | 0 <= k < |outcomes|
      ensures FindOutcome(outcomes, executed[k].spec.id) == Reported(outcomes[k].result)
    {
      FindNth(outcomes, executed, k);
    }
    var r := BuildReceipt(diff, plan, outcomes);
    assert forall k :: 0 <= k < |outcomes| ==> (r.executed[k].result == Pass <==> outcomes[k].result.Ok?);
  }

  /** The length and last character of an id; they tell the catalog's ids apart. */
  function Tag(id: string): (int, char) {
    if id == "" then (0, ' ') else (|id|, id[|id| - 1])
  }

  const TAGS: seq<(int, char)> := [
    (4, 's'), (6, 'y'), (13, 's'), (8, 's'), (11, 'n'), (22, 'y'), (19, 'm'), (14, 's'), (17, 's'), (10, 'h'), (24, 's'),
    (15, 's'), (7, 'd'), (19, 's'), (22, 's'), (11, 'e')]

  lemma CatalogTags()
    ensures |CATALOG| == |TAGS| == 16 && forall i :: 0 <= i < 16 ==> Tag(CATALOG[i].id) == TAGS[i]
  {
    forall i | 0 <= i < 16
      ensures Tag(CATALOG[i].id) == TAGS[i]
    {
      if i < 8 {
        FirstTags(i);
      } else {
        LastTags(i);
      }
    }
  }

  lemma FirstTags(i: nat)
    requires i < 8
    ensures Tag(CATALOG[i].id) == TAGS[i]
  {}

  lemma LastTags(i: nat)
    requires 8 <= i < 16
    ensures Tag(CATALOG[i].id) == TAGS[i]
  {}

  lemma TagsDiffer(i: nat, j: nat)
    requires i < j < 16
    ensures TAGS[i] != TAGS[j]
  {}

  lemma CatalogIdsAreUnique(paths: set<string>, degraded: bool)
    ensures DistinctIds(PlanOf(CATALOG, paths, degraded).checks)
  {
    hide CATALOG, Tag, TAGS;
    var checks := PlanOf(CATALOG, paths, degraded).checks;
    CatalogTags();
    forall i, j | 0 <= i < j < |checks|
      ensures checks[i].spec.id != checks[j].spec.id
    {
      SelectedExactlyWhenNeeded(paths, degraded, i);
      SelectedExactlyWhenNeeded(paths, degraded, j);
      TagsDiffer(i, j);
    }
  }

  datatype RunError = ReceiptNotWritten | ChecksFailed(ids: seq<string>)

  /** The ids of the failed outcomes, in order. */
  function Failed(outcomes: seq<Outcome>): (ids: seq<string>)
    ensures ids == [] <==> forall k :: 0 <= k < |outcomes| ==> outcomes[k].result.Ok?
    ensures forall id :: id in ids <==> exists k :: 0 <= k < |outcomes| && outcomes[k].id == id && outcomes[k].result.Err?
  {
    if outcomes == [] then []
    else (if outcomes[0].result.Err? then [outcomes[0].id] else []) + Failed(outcomes[1..])
  }

  ghost predicate NamesFailures(ids: seq<string>, executed: seq<ExecutedEntry>) {
    forall id :: id in ids <==> exists k :: 0 <= k < |executed| && executed[k].name == id && executed[k].result.Fail?
  }

  /** The paths the run reasons about. */
  function ChangedPaths(baseArg: Option<string>, git: Git): set<string> {
    Listed(git(UNTRACKED)) + Listed(TrackedChanges(baseArg, git))
  }

  /** What one run leaves: every needed check was dispatched once, in catalog order, and the
    * receipt lists each of them with its result and every other check as skipped. */
  ghost predicate Ran(
    paths: set<string>, degraded: bool, dispatch: (nat, string) -> Result<(), string>, receipt: Receipt)
  {
    var checks := PlanOf(CATALOG, paths, degraded).checks;
    var chosen, left := Select(checks, true), Select(checks, false);
    && |receipt.executed| == |chosen| && |receipt.skipped| == |left|
    && (forall k :: 0 <= k < |chosen| ==>
          receipt.executed[k] == ExecutedEntry(chosen[k].spec.id, chosen[k].reason, Reported(dispatch(k, chosen[k].spec.id))))
    && (forall k :: 0 <= k < |left| ==> receipt.skipped[k] == SkippedEntry(left[k].spec.id, left[k].reason))
    && (receipt.pass <==> forall k :: 0 <= k < |chosen| ==> dispatch(k, chosen[k].spec.id).Ok?)
  }

  method Run(baseArg: Option<string>, git: Git, dispatch: (nat, string) -> Result<(), string>, writable: bool)
    returns (r: Result<(), RunError>, receipt: Receipt)
    ensures Ran(ChangedPaths(baseArg, git), Undetermined(baseArg, git), dispatch, receipt)
    ensures r.Ok? <==> writable && receipt.pass
    ensures !writable ==> r == Err(ReceiptNotWritten)
    ensures writable && r.Err? ==> r.error.ChecksFailed? && NamesFailures(r.error.ids, receipt.executed)
    ensures receipt.fullGateRequired && Elements(receipt.changedPaths) == ChangedPaths(baseArg, git)
  {
    hide PlanOf, Select, ChangedPaths, Undetermined, FirstLine, Listed, TrackedChanges, UNTRACKED, FindOutcome, DistinctIds,
      NamesFailures, Failed;
    var diff, degraded := ResolveDiffWith(baseArg, git);
    var plan := PlanInner(diff.changedPaths, degraded);
    ghost var paths := ChangedPaths(baseArg, git);
    PathsAre(baseArg, git);
    var outcomes: seq<Outcome> := [];
    NothingSelected(plan.checks);
    for i := 0 to |plan.checks|
      invariant Answers(outcomes, Select(plan.checks[..i], true)) && |outcomes| == |Select(plan.checks[..i], true)|
      invariant forall k :: 0 <= k < |outcomes| ==> outcomes[k].result == dispatch(k, outcomes[k].id)
    {
      var check := plan.checks[i];
      SelectNext(plan.checks, i);
      if check.selected {
        outcomes := outcomes + [Outcome(check.spec.id, dispatch(|outcomes|, check.spec.id))];
      }
    }
    assert plan.checks[..|plan.checks|] == plan.checks;
    receipt := BuildReceipt(diff, plan, outcomes);
    CatalogIdsAreUnique(paths, degraded);
    ReceiptReportsOutcomes(diff, plan, outcomes);
    if !writable {
      return Err(ReceiptNotWritten), receipt;
    }
    FailuresNamed(outcomes, receipt.executed);
    var failed := Failed(outcomes);
    r := if failed == [] then Ok(()) else Err(ChecksFailed(failed));
  }

  lemma FailuresNamed(outcomes: seq<Outcome>, executed: seq<ExecutedEntry>)
    requires |executed| == |outcomes|
    requires forall k :: 0 <= k < |outcomes| ==>
      executed[k].name == outcomes[k].id && executed[k].result == Reported(outcomes[k].result)
    ensures NamesFailures(Failed(outcomes), executed)
    ensures Failed(outcomes) == [] <==> forall k :: 0 <= k < |outcomes| ==> outcomes[k].result.Ok?
  {
    hide FirstLine, Failed;
  }

  lemma PathsAre(baseArg: Option<string>, git: Git)
    ensures ChangedPaths(baseArg, git) == Listed(git(UNTRACKED)) + Listed(TrackedChanges(baseArg, git))
  {}

  lemma NothingSelected(checks: seq<PlannedCheck>)
    ensures Select(checks[..0], true) == []
  {}

  lemma SelectNext(checks: seq<PlannedCheck>, i: nat)
    requires i < |checks|
    ensures Select(checks[..i + 1], true)
         == Select(checks[..i], true) + (if checks[i].selected then [checks[i]] else [])
  {
    assert checks[..i + 1][..i] == checks[..i];
  }

  /** If the diff could not be determined, the run skips nothing. */
  lemma UndeterminedSkipsNothing(
    paths: set<string>, dispatch: (nat, string) -> Result<(), string>, receipt: Receipt)
    requires Ran(paths, true, dispatch, receipt)
    ensures receipt.skipped == [] && |receipt.executed| == |CATALOG|
  {
    hide CATALOG, Select, Unsafe, Decide;
    var checks := PlanOf(CATALOG, paths, true).checks;
    forall i | 0 <= i < |checks|
      ensures checks[i].selected
    {
      UntrustedDiffRunsEverything(paths, true, i);
    }
    AllSelected(checks);
  }

  lemma {:induction false} AllSelected(checks: seq<PlannedCheck>)
    requires forall i :: 0 <= i < |checks| ==> checks[i].selected
    ensures Select(checks, true) == checks && Select(checks, false) == []
  {
    if checks != [] {
      var front, last := checks[..|checks| - 1], checks[|checks| - 1];
      AllSelected(front);
      assert checks == front + [last] && last.selected;
      assert Select(checks, true) == Select(front, true) + [last];
      assert Select(checks, false) == Select(front, false) + [];
    }
  }
}
