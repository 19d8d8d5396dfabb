/** What the local planner selects for a diff, told on the text of its paths and the ids of
  * its checks: xtask/src/check_local.rs, lines 86-385. */
module LocalPaths {
  import opened Wrappers
  import opened Text
  import opened RustText
  import opened Lists
  import opened LocalPlan

  predicate IsRootDocument(path: string) {
    path == "README.md" || path == "CHANGELOG.md" || path == "AGENTS.md" || path == "CLAUDE.md"
  }

  /** Documentation that is not part of the dogfood corpus. */
  predicate IsDocument(path: string) {
    (StartsWith(path, "docs/") && !StartsWith(path, "docs/dogfood/")) || IsRootDocument(path)
  }

  predicate IsFixture(path: string) {
    StartsWith(path, "fixtures/") || path == "policy/calibration.toml"
  }

  /** A path that is under none of the directories whose effect is known. */
  predicate IsUncharted(path: string) {
    && !StartsWith(path, "docs/") && !StartsWith(path, "fixtures/") && !StartsWith(path, "policy/")
    && !StartsWith(path, ".github/") && !StartsWith(path, "fuzz/") && !IsRootDocument(path)
  }

  // ---------- what a category stands for ----------

  predicate Begins(path: string, a: char, b: char) {
    |path| >= 2 && path[0] == a && path[1] == b
  }

  lemma Beginning(path: string, prefix: string)
    requires |prefix| >= 2
    ensures StartsWith(path, prefix) ==> Begins(path, prefix[0], prefix[1])
  {}

  /** How the directories and the root documents begin, so that no two have a path in common. */
  lemma Beginnings(path: string)
    ensures StartsWith(path, "docs/") ==> Begins(path, 'd', 'o')
    ensures StartsWith(path, "fixtures/") ==> Begins(path, 'f', 'i')
    ensures StartsWith(path, "policy/") ==> Begins(path, 'p', 'o')
    ensures StartsWith(path, ".github/") ==> Begins(path, '.', 'g')
    ensures StartsWith(path, "fuzz/") ==> Begins(path, 'f', 'u')
    ensures StartsWith(path, "xtask/") ==> Begins(path, 'x', 't')
    ensures StartsWith(path, "crates/") ==> Begins(path, 'c', 'r')
  {
    Beginning(path, "docs/");
    Beginning(path, "fixtures/");
    Beginning(path, "policy/");
    Beginning(path, ".github/");
    Beginning(path, "fuzz/");
    Beginning(path, "xtask/");
    Beginning(path, "crates/");
  }

  lemma RootBeginnings(path: string)
    ensures IsRootDocument(path) ==> Begins(path, 'R', 'E') || Begins(path, 'C', 'H') || Begins(path, 'A', 'G') || Begins(path, 'C', 'L')
  {}

  lemma CalibrationIsPolicy()
    ensures StartsWith("policy/calibration.toml", "policy/")
  {}

  lemma DogfoodIsDocs(path: string)
    ensures StartsWith(path, "docs/dogfood/") ==> StartsWith(path, "docs/")
  {
    assert "docs/dogfood/"[..5] == "docs/";
  }

  lemma RootMeans(path: string)
    ensures path in ["README.md", "CHANGELOG.md", "AGENTS.md", "CLAUDE.md"] <==> IsRootDocument(path)
  {}

  /** Each category on the text of a path, whatever the order in which the code asks. */
  lemma CategoryMeans(rawPath: string)
    ensures var path, category := Trim(rawPath), CategorizePath(rawPath);
      && (category.Corpus? <==> StartsWith(path, "docs/dogfood/"))
      && (category.Docs? <==> IsDocument(path))
      && (category.Calibration? <==> path == "policy/calibration.toml")
      && (category.Fixtures? <==> StartsWith(path, "fixtures/"))
      && (category.Policy? <==> StartsWith(path, "policy/") && path != "policy/calibration.toml")
      && (category.Workflow? <==> StartsWith(path, ".github/"))
      && (category.Fuzz? <==> StartsWith(path, "fuzz/"))
      && (category.Xtask? <==> StartsWith(path, "xtask/"))
      && (category.ProductRust? <==> StartsWith(path, "crates/") && EndsWith(path, ".rs"))
      && (category.Unknown? <==> IsUncharted(path) && !StartsWith(path, "xtask/")
                                 && !(StartsWith(path, "crates/") && EndsWith(path, ".rs")))
  {
    hide Trim, StartsWith, EndsWith, IsRootDocument;
    var path := Trim(rawPath);
    Beginnings(path);
    RootBeginnings(path);
    RootMeans(path);
    CalibrationIsPolicy();
    DogfoodIsDocs(path);
  }

  lemma UnchartedForces(rawPath: string)
    ensures ForcesFull(CategorizePath(rawPath)) <==> IsUncharted(Trim(rawPath))
  {
    hide Trim, StartsWith, EndsWith, IsRootDocument, CategorizePath;
    var path := Trim(rawPath);
    CategoryMeans(rawPath);
    Beginnings(path);
    RootBeginnings(path);
  }

  // ---------- which checks run ----------

  const ALWAYS := ["docs", "policy", "self-unsafe"]
  const FIXTURE_CHECKS := ["fixtures", "calibration", "fixture-surface-parity", "surface-determinism"]
  const CORPUS_CHECKS :=
    ["real-pr-corpus", "corpus-partitions", "seam-batch", "evidence-loss-challenges", "external-pilots", "dogfood"]
  const DOCUMENT_CHECKS := ["support-tiers", "seam-batch"]
  const FUZZ_CHECKS := ["fuzz-manual-harness", "fuzz-tracked-artifacts"]

  /** The path calls for the check. */
  predicate CallsFor(path: string, id: string) {
    || IsUncharted(path)
    || (id in FIXTURE_CHECKS && IsFixture(path))
    || (id in CORPUS_CHECKS && StartsWith(path, "docs/dogfood/"))
    || (id in DOCUMENT_CHECKS && IsDocument(path))
    || (id in FUZZ_CHECKS && StartsWith(path, "fuzz/"))
  }

  /** Check i of the catalog has the id, and the lists name it as they should. */
  predicate IsEntry(i: nat, id: string, always: bool, fixture: bool, corpus: bool, document: bool, fuzz: bool) {
    && i < |CATALOG| && CATALOG[i].id == id && CATALOG[i].always == always
    && (id in ALWAYS <==> always) && (id in FIXTURE_CHECKS <==> fixture) && (id in CORPUS_CHECKS <==> corpus)
    && (id in DOCUMENT_CHECKS <==> document) && (id in FUZZ_CHECKS <==> fuzz)
    && (Docs in CATALOG[i].triggers <==> document) && (Corpus in CATALOG[i].triggers <==> corpus)
    && (Fixtures in CATALOG[i].triggers <==> fixture) && (Calibration in CATALOG[i].triggers <==> fixture)
    && (Fuzz in CATALOG[i].triggers <==> fuzz)
    && Policy !in CATALOG[i].triggers && Workflow !in CATALOG[i].triggers
  }

  lemma FirstChecks()
    ensures IsEntry(0, "docs", true, false, false, false, false) && IsEntry(1, "policy", true, false, false, false, false)
    ensures IsEntry(2, "support-tiers", false, false, false, true, false)
  {}

  lemma FixtureChecks()
    ensures IsEntry(3, "fixtures", false, true, false, false, false)
    ensures IsEntry(4, "calibration", false, true, false, false, false)
    ensures IsEntry(5, "fixture-surface-parity", false, true, false, false, false)
    ensures IsEntry(6, "surface-determinism", false, true, false, false, false)
  {}

  lemma CorpusChecks()
    ensures IsEntry(7, "real-pr-corpus", false, false, true, false, false)
    ensures IsEntry(8, "corpus-partitions", false, false, true, false, false)
    ensures IsEntry(9, "seam-batch", false, false, true, true, false)
  {}

  lemma MoreCorpusChecks()
    ensures IsEntry(10, "evidence-loss-challenges", false, false, true, false, false)
    ensures IsEntry(11, "external-pilots", false, false, true, false, false)
    ensures IsEntry(12, "dogfood", false, false, true, false, false)
  {}

  lemma LastChecks()
    ensures |CATALOG| == 16
    ensures IsEntry(13, "fuzz-manual-harness", false, false, false, false, true)
    ensures IsEntry(14, "fuzz-tracked-artifacts", false, false, false, false, true)
    ensures IsEntry(15, "self-unsafe", true, false, false, false, false)
  {}

  /** The entry of the catalog agrees with the lists of ids. */
  ghost predicate Agrees(i: nat)
    requires i < |CATALOG|
  {
    exists always, fixture, corpus, document, fuzz :: IsEntry(i, CATALOG[i].id, always, fixture, corpus, document, fuzz)
  }

  lemma CatalogAgrees(i: nat)
    requires i < |CATALOG|
    ensures Agrees(i)
  {
    hide IsEntry, CATALOG;
    FirstChecks();
    FixtureChecks();
    CorpusChecks();
    MoreCorpusChecks();
    LastChecks();
    EntryId(i);
  }

  lemma EntryId(i: nat)
    ensures forall id, always, fixture, corpus, document, fuzz ::
      IsEntry(i, id, always, fixture, corpus, document, fuzz) ==> i < |CATALOG| && CATALOG[i].id == id
  {
    hide CATALOG;
  }

  lemma TriggersMean(path: string, i: nat)
    requires i < |CATALOG|
    ensures !CATALOG[i].always ==>
      (ForcesFull(CategorizePath(path)) || CategorizePath(path) in CATALOG[i].triggers <==> CallsFor(Trim(path), CATALOG[i].id))
    ensures CATALOG[i].always <==> CATALOG[i].id in ALWAYS
  {
    hide CATALOG, ALWAYS, FIXTURE_CHECKS, CORPUS_CHECKS, DOCUMENT_CHECKS, FUZZ_CHECKS, Trim, CategorizePath, IsUncharted,
      StartsWith, EndsWith, IsRootDocument;
    CatalogAgrees(i);
    CategoryMeans(path);
    UnchartedForces(path);
  }

  /** For every diff and every check: it runs exactly when it always does, when the diff is
    * degraded or empty, or when the text of some path calls for its id. */
  lemma RunsExactlyWhenCalledFor(paths: set<string>, degraded: bool, i: nat)
    requires i < |CATALOG|
    ensures Selects(paths, degraded, i) <==>
      CATALOG[i].id in ALWAYS || degraded || paths == {} || exists p :: p in paths && CallsFor(Trim(p), CATALOG[i].id)
  {
    hide CATALOG, ALWAYS, Selects, CategorizePath, ForcesFull, CallsFor, Trim;
    SelectedExactlyWhenNeeded(paths, degraded, i);
    forall p | p in paths
      ensures !CATALOG[i].always ==>
        (ForcesFull(CategorizePath(p)) || CategorizePath(p) in CATALOG[i].triggers <==> CallsFor(Trim(p), CATALOG[i].id))
    {
      TriggersMean(p, i);
    }
    TriggersMean("", i);
  }

  /** Whatever else a diff holds: product Rust, xtask code or a path outside the known
    * directories makes the whole catalog run. */
  lemma CodeRunsEverything(paths: set<string>, path: string, i: nat)
    requires i < |CATALOG| && path in paths
    requires var p := Trim(path);
      (StartsWith(p, "crates/") && EndsWith(p, ".rs")) || StartsWith(p, "xtask/") || IsUncharted(p)
    ensures Selects(paths, false, i)
  {
    hide CATALOG, ALWAYS, Selects, StartsWith, EndsWith, IsRootDocument, Trim;
    Beginnings(Trim(path));
    RootBeginnings(Trim(path));
    RunsExactlyWhenCalledFor(paths, false, i);
    assert CallsFor(Trim(path), CATALOG[i].id);
  }

  // ---------- from git's answers to the selection ----------

  /** A path that a listing can print on a line. */
  predicate IsPath(path: string) {
    path != "" && IsTrimmed(path) && '\n' !in path
  }

  predicate ArePaths(paths: seq<string>) {
    forall i :: 0 <= i < |paths| ==> IsPath(paths[i])
  }

  lemma PathLine(path: string)
    requires IsPath(path)
    ensures WithoutReturn(path) == path && Trim(path) == path
  {
    hide IsWhitespace, Trim;
    TrimAround("", path, "");
    assert "" + path + "" == path;
    ReturnIsWhitespace();
    assert path[|path| - 1..] == [path[|path| - 1]];
  }

  lemma {:induction false} PathLines(paths: seq<string>)
    requires paths != [] && ArePaths(paths)
    ensures LinesOfPieces(paths) == paths
  {
    hide IsPath, WithoutReturn;
    PathLine(paths[0]);
    if |paths| > 1 {
      PathLines(paths[1..]);
      assert paths == [paths[0]] + paths[1..];
    } else {
      assert IsPath(paths[0]) ==> paths[0] != "" by {
        PathIsSomething(paths[0]);
      }
    }
  }

  lemma PathIsSomething(path: string)
    ensures IsPath(path) ==> path != "" && '\n' !in path
  {}

  /** A listing of paths, one on a line, names them. */
  lemma ListingNames(paths: seq<string>)
    requires ArePaths(paths)
    ensures LocalPlan.Listed(Ok(Join(paths, "\n"))) == Elements(paths)
  {
    hide IsPath, Trim, LinesOfPieces, Split;
    var text := Join(paths, "\n");
    if paths == [] {
      NothingListed();
    } else {
      forall i | 0 <= i < |paths|
        ensures '\n' !in paths[i] && paths[i] != "" && Trim(paths[i]) == paths[i]
      {
        PathIsSomething(paths[i]);
        PathLine(paths[i]);
      }
      SplitOfJoin(paths, '\n');
      PathLines(paths);
    }
  }

  lemma NothingListed()
    ensures Lines("") == []
  {}

  /** The base that a comparison starts from: the one that was asked for, or else where the
    * head left origin/main, or else where it left main. */
  predicate IsBase(baseArg: Option<string>, git: Git, base: string) {
    || baseArg == Some(base)
    || (baseArg.None? && git(["merge-base", "origin/main", "HEAD"]) == Ok(base))
    || (baseArg.None? && git(["merge-base", "origin/main", "HEAD"]).Err? && git(["merge-base", "main", "HEAD"]) == Ok(base))
  }

  lemma BaseIs(baseArg: Option<string>, git: Git, base: string)
    ensures BaseRef(baseArg, git) == Some(base) <==> IsBase(baseArg, git, base)
    ensures BaseRef(baseArg, git).None? <==>
      baseArg.None? && git(["merge-base", "origin/main", "HEAD"]).Err? && git(["merge-base", "main", "HEAD"]).Err?
  {}

  /** Git answers with the untracked files and with what changed since the base. */
  predicate Answers(baseArg: Option<string>, git: Git, base: string, untracked: seq<string>, tracked: seq<string>) {
    && IsBase(baseArg, git, base) && ArePaths(untracked) && ArePaths(tracked)
    && git(["ls-files", "--others", "--exclude-standard"]) == Ok(Join(untracked, "\n"))
    && git(["diff", "--no-renames", "--name-only", base]) == Ok(Join(tracked, "\n"))
  }

  /** The check always runs, or no path is known, or one calls for it. */
  predicate IsCalledFor(paths: seq<string>, id: string) {
    id in ALWAYS || paths == [] || exists p :: p in paths && CallsFor(p, id)
  }

  /** From git's answers to the selection: with both listings there, a check runs exactly when it
    * always does, when nothing is listed, or when some listed path calls for its id; without a
    * base or one of the listings, every check runs. */
  lemma SelectionFollowsGit(baseArg: Option<string>, git: Git, base: string, untracked: seq<string>, tracked: seq<string>, i: nat)
    requires i < |CATALOG|
    ensures var degraded := Undetermined(baseArg, git);
      var paths := LocalPlan.Listed(git(UNTRACKED)) + LocalPlan.Listed(TrackedChanges(baseArg, git));
      && (Answers(baseArg, git, base, untracked, tracked) ==>
            && paths == Elements(untracked) + Elements(tracked)
            && (Selects(paths, degraded, i) <==> IsCalledFor(untracked + tracked, CATALOG[i].id)))
      && (git(["ls-files", "--others", "--exclude-standard"]).Err? ==> Selects(paths, degraded, i))
      && ((forall b :: !IsBase(baseArg, git, b)) ==> Selects(paths, degraded, i))
      && (IsBase(baseArg, git, base) && git(["diff", "--no-renames", "--name-only", base]).Err? ==> Selects(paths, degraded, i))
  {
    hide CATALOG, ALWAYS, Selects, CallsFor, LocalPlan.Listed, IsBase, ArePaths, Trim, BaseRef;
    var degraded := Undetermined(baseArg, git);
    var paths := LocalPlan.Listed(git(UNTRACKED)) + LocalPlan.Listed(TrackedChanges(baseArg, git));
    BaseIs(baseArg, git, base);
    if BaseRef(baseArg, git).Some? {
      BaseIs(baseArg, git, BaseRef(baseArg, git).value);
    }
    RunsExactlyWhenCalledFor(paths, degraded, i);
    if Answers(baseArg, git, base, untracked, tracked) {
      ListingNames(untracked);
      ListingNames(tracked);
      var all := untracked + tracked;
      assert forall p :: p in paths <==> p in all;
      assert all != [] ==> all[0] in paths;
      forall p | p in all
        ensures Trim(p) == p
      {
        ListedIsTrimmed(untracked, p);
        ListedIsTrimmed(tracked, p);
      }
    }
  }

  lemma ListedIsTrimmed(paths: seq<string>, p: string)
    requires ArePaths(paths)
    ensures p in paths ==> Trim(p) == p
  {
    hide IsPath, Trim;
    if p in paths {
      PathLine(p);
    }
  }
}
