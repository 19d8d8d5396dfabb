/** When a review of a pull request still counts: the review log, the withdrawal rule
  * and the verdict of scripts/ci/check-pr-semantic-review-currentness.py. */
module ReviewGate {
  import opened Wrappers
  import opened Text
  import opened PyText
  import opened Fences
  import opened ReviewBody

  // ---------- what the program is given ----------

  datatype Account = User | Bot | OtherAccount

  datatype State = Commented | Approved | ChangesRequested | Dismissed | Pending | OtherState

  datatype Review = Review(login: string, account: Account, state: State, body: string,
                           commitOid: string, submittedAt: string)

  /** datetime.fromisoformat: no timestamp, one without a zone, or an instant. */
  datatype Reading = Malformed | NoZone | At(instant: int)

  datatype Ancestry = Ancestor | NotAncestor | ProbeFailed

  /** The git processes; None and ProbeFailed are instrument failures. */
  datatype Git = Git(
    available: string -> bool,
    ancestry: (string, string) -> Ancestry,
    subject: (string, string) -> Option<string>,
    nameStatus: (string, string) -> Option<string>,
    blob: (string, string) -> Option<string>,
    quietDiff: (string, string) -> int)

  datatype Env = Env(reader: Reader, clock: string -> Reading, git: Git)

  datatype Failure = InstrumentFailure

  // ---------- the newest valid marker ----------

  datatype Candidate = Candidate(review: Review, marker: Marker)

  predicate Published(state: State) {
    state.Commented? || state.Approved? || state.ChangesRequested?
  }

  function MarkerIn(env: Env, pr: int, r: Review): Option<Marker> {
    if r.account.Bot? || !Published(r.state) then None
    else env.reader.ParseMarker(r.body, pr, r.commitOid)
  }

  function Candidates(env: Env, pr: int, log: seq<Review>): (found: seq<Candidate>)
    ensures forall c :: c in found <==> c.review in log && MarkerIn(env, pr, c.review) == Some(c.marker)
  {
    if log == [] then []
    else
      var last := log[|log| - 1];
      assert log == log[..|log| - 1] + [last];
      match MarkerIn(env, pr, last)
      case None => Candidates(env, pr, log[..|log| - 1])
      case Some(marker) => Candidates(env, pr, log[..|log| - 1]) + [Candidate(last, marker)]
  }

  predicate Timed(env: Env, cs: seq<Candidate>) {
    forall c :: c in cs ==> env.clock(c.review.submittedAt).At?
  }

  function Instant(env: Env, r: Review): int
    requires env.clock(r.submittedAt).At?
  {
    env.clock(r.submittedAt).instant
  }

  /** The first of the candidates submitted last, as Python's max picks it. */
  function Newest(env: Env, cs: seq<Candidate>): (k: nat)
    requires cs != [] && Timed(env, cs)
    ensures k < |cs|
    ensures forall j :: 0 <= j < |cs| ==> Instant(env, cs[j].review) <= Instant(env, cs[k].review)
    ensures forall j :: 0 <= j < k ==> Instant(env, cs[j].review) < Instant(env, cs[k].review)
  {
    var n := |cs| - 1;
    if n == 0 then 0
    else
      var k := Newest(env, cs[..n]);
      if Instant(env, cs[n].review) > Instant(env, cs[k].review) then n else k
  }

  function Latest(env: Env, pr: int, log: seq<Review>): Result<Option<Candidate>, Failure> {
    var cs := Candidates(env, pr, log);
    if cs == [] then Ok(None)
    else if !Timed(env, cs) then Err(InstrumentFailure)
    else Ok(Some(cs[Newest(env, cs)]))
  }

  method LatestValidReview(env: Env, pr: int, log: seq<Review>)
    returns (r: Result<Option<Candidate>, Failure>)
    ensures r == Latest(env, pr, log)
  {
    hide Reader.ParseMarker;
    var found: seq<Candidate> := [];
    for i := 0 to |log|
      invariant found == Candidates(env, pr, log[..i])
    {
      var review := log[i];
      assert log[..i + 1][..i] == log[..i];
      if review.account.Bot? || !Published(review.state) {
        continue;
      }
      var marker := env.reader.ParseMarker(review.body, pr, review.commitOid);
      if marker.Some? {
        found := found + [Candidate(review, marker.value)];
      }
    }
    assert log[..|log|] == log;
    if found == [] {
      return Ok(None);
    }
    if exists c :: c in found && !env.clock(c.review.submittedAt).At? {
      return Err(InstrumentFailure);
    }
    r := Ok(Some(found[Newest(env, found)]));
  }

  // ---------- later reviews that withdraw it ----------

  datatype Barrier = Barrier(instant: int, outcome: string)

  /** A published review, not by a bot, with all the sections of a cumulative review. */
  predicate Cumulative(r: Review) {
    !r.account.Bot? && !r.state.Dismissed? && !r.state.Pending? && HasSections(r.body)
  }

  predicate Identified(r: Review) {
    r.login != "" && r.account.User? && Published(r.state) && IsOid(r.commitOid)
  }

  /** The review cannot be placed before the instant and cannot be relied on either. */
  predicate Breaks(env: Env, r: Review, instant: int) {
    Cumulative(r) &&
    var reading := env.clock(r.submittedAt);
    !reading.At? || (reading.instant >= instant && !Identified(r))
  }

  /** A cumulative review at or after the instant that does not declare REVIEW_CURRENT. */
  predicate Withdraws(env: Env, r: Review, instant: int) {
    Cumulative(r) && env.clock(r.submittedAt).At? && Instant(env, r) >= instant &&
    env.reader.DeclaredResult(r.body) != Some(MARKER_RESULT)
  }

  function LowerCase(s: string): (t: string)
    ensures |t| == |s|
  {
    seq(|s|, i requires 0 <= i < |s| => if 'A' <= s[i] <= 'Z' then s[i] - 'A' + 'a' else s[i])
  }

  function Outcome(declared: Option<string>): string {
    if declared.None? then "ambiguous" else LowerCase(declared.value)
  }

  function BarrierOf(env: Env, r: Review): Barrier
    requires env.clock(r.submittedAt).At?
  {
    Barrier(Instant(env, r), Outcome(env.reader.DeclaredResult(r.body)))
  }

  function Barriers(env: Env, log: seq<Review>, instant: int): (bs: seq<Barrier>)
    ensures forall b :: b in bs <==> exists r :: r in log && Withdraws(env, r, instant) && b == BarrierOf(env, r)
  {
    if log == [] then []
    else
      hide Withdraws, BarrierOf;
      var last := log[|log| - 1];
      assert forall r :: r in log <==> r in log[..|log| - 1] || r == last;
      Barriers(env, log[..|log| - 1], instant) + if Withdraws(env, last, instant) then [BarrierOf(env, last)] else []
  }

  function NewestInstant(bs: seq<Barrier>): (t: int)
    requires bs != []
    ensures (exists b :: b in bs && b.instant == t) && forall b :: b in bs ==> b.instant <= t
  {
    if |bs| == 1 then bs[0].instant
    else
      var t := NewestInstant(bs[1..]);
      assert forall b :: b in bs ==> b == bs[0] || b in bs[1..];
      if bs[0].instant > t then bs[0].instant else t
  }

  /** The reason given by the newest barriers: their outcome when they agree. */
  function Reason(bs: seq<Barrier>): Option<string> {
    if bs == [] then None
    else
      var newest := NewestInstant(bs);
      var outcomes := set b | b in bs && b.instant == newest :: b.outcome;
      var first := FirstAt(bs, newest);
      Some("later_cumulative_review_" + if outcomes == {first.outcome} then first.outcome else "ambiguous")
  }

  function FirstAt(bs: seq<Barrier>, instant: int): (b: Barrier)
    requires exists b :: b in bs && b.instant == instant
    ensures b in bs && b.instant == instant
  {
    if bs[0].instant == instant then bs[0]
    else
      assert forall b :: b in bs ==> b == bs[0] || b in bs[1..];
      FirstAt(bs[1..], instant)
  }

  function Superseding(env: Env, log: seq<Review>, selected: Review): Result<Option<string>, Failure> {
    var reading := env.clock(selected.submittedAt);
    if !reading.At? then Err(InstrumentFailure)
    else if exists r :: r in log && Breaks(env, r, reading.instant) then Err(InstrumentFailure)
    else Ok(Reason(Barriers(env, log, reading.instant)))
  }

  method SupersedingReviewReason(env: Env, log: seq<Review>, selected: Review)
    returns (reason: Result<Option<string>, Failure>)
    ensures reason == Superseding(env, log, selected)
  {
    hide Reader.DeclaredResult, HasSections;
    var selectedAt := env.clock(selected.submittedAt);
    if !selectedAt.At? {
      return Err(InstrumentFailure);
    }
    var barriers: seq<Barrier> := [];
    for i := 0 to |log|
      invariant barriers == Barriers(env, log[..i], selectedAt.instant)
      invariant forall r :: r in log[..i] ==> !Breaks(env, r, selectedAt.instant)
    {
      var review := log[i];
      assert log[..i + 1][..i] == log[..i] && log[..i + 1] == log[..i] + [review];
      if review.account.Bot? || review.state.Dismissed? || review.state.Pending? {
        continue;
      }
      if !HasSections(review.body) {
        continue;
      }
      var submittedAt := env.clock(review.submittedAt);
      if !submittedAt.At? {
        assert Breaks(env, review, selectedAt.instant);
        return Err(InstrumentFailure);
      }
      if submittedAt.instant < selectedAt.instant {
        continue;
      }
      if review.login == "" || !review.account.User? || !Published(review.state) || !IsOid(review.commitOid) {
        assert Breaks(env, review, selectedAt.instant);
        return Err(InstrumentFailure);
      }
      var result := env.reader.DeclaredResult(review.body);
      if result != Some(MARKER_RESULT) {
        barriers := barriers + [Barrier(submittedAt.instant, Outcome(result))];
      }
    }
    assert log[..|log|] == log;
    reason := Ok(Reason(barriers));
  }

  // ---------- carrying a review over later commits ----------

  /** A name-status row: its tab-separated fields. */
  function Rows(output: string): seq<seq<string>> {
    RowsOf(SplitLines(Strip(output)))
  }

  function RowsOf(lines: seq<string>): seq<seq<string>> {
    if lines == [] then []
    else (if lines[0] == "" then [] else [Split(lines[0], '\t')]) + RowsOf(lines[1..])
  }

  predicate IsPlainModification(row: seq<string>) {
    |row| == 2 && row[0] == "M"
  }

  /** The part of a path after its last slash. */
  function FileName(path: string): string {
    var parts := Split(path, '/');
    parts[|parts| - 1]
  }

  function LastDot(name: string): (i: int)
    ensures -1 <= i < |name| && (i >= 0 ==> name[i] == '.')
    ensures forall j :: i < j < |name| ==> name[j] != '.'
  {
    if name == "" then -1
    else if name[|name| - 1] == '.' then |name| - 1
    else LastDot(name[..|name| - 1])
  }

  /** pathlib's suffix: from the last dot of the file name, when the dot is neither
    * its first nor its last character. */
  function Suffix(path: string): string {
    var name := FileName(path);
    var dot := LastDot(name);
    if 0 < dot < |name| - 1 then name[dot..] else ""
  }

  predicate IsProse(path: string) {
    LowerCase(Suffix(path)) in [".md", ".txt"]
  }

  function Paths(rows: seq<seq<string>>): (paths: seq<string>)
    requires forall i :: 0 <= i < |rows| ==> |rows[i]| == 2
    ensures |paths| == |rows|
  {
    seq(|rows|, i requires 0 <= i < |rows| => rows[i][1])
  }

  /** Whether both commits hold the path with the same fenced texts; None when either
    * blob cannot be read. */
  function SameFences(git: Git, reviewed: string, current: string, path: string): Option<bool> {
    var before, after := git.blob(reviewed, path), git.blob(current, path);
    if before.None? || after.None? then None else Some(FencedTexts(before.value) == FencedTexts(after.value))
  }

  /** The first path whose fenced texts differ, or cannot be read, decides. */
  function CompareFences(git: Git, reviewed: string, current: string, paths: seq<string>): Result<bool, Failure> {
    if paths == [] then Ok(true)
    else
      match SameFences(git, reviewed, current, paths[0])
      case None => Err(InstrumentFailure)
      case Some(false) => Ok(false)
      case Some(true) => CompareFences(git, reviewed, current, paths[1..])
  }

  lemma {:induction false} ComparedFences(git: Git, reviewed: string, current: string, paths: seq<string>)
    ensures CompareFences(git, reviewed, current, paths) == Ok(true)
       <==> forall i :: 0 <= i < |paths| ==> SameFences(git, reviewed, current, paths[i]) == Some(true)
  {
    hide SameFences;
    if paths != [] {
      var rest := paths[1..];
      ComparedFences(git, reviewed, current, rest);
      assert forall i :: 0 < i < |paths| ==> paths[i] == rest[i - 1];
      assert forall i :: 0 <= i < |rest| ==> rest[i] == paths[i + 1];
    }
  }

  predicate HasCommit(git: Git, oid: string) {
    IsOid(oid) && git.available(oid)
  }

  // The reasons that a follow-up gives.
  const NOT_AN_ANCESTOR := "reviewed_head_is_not_an_ancestor_of_current_head"
  const NO_CHANGES := "no_candidate_changes_after_review"
  const STRUCTURAL_CHANGE := "path,_file-kind,_or_structural_change_after_review"
  const NOT_PROSE := "post-review_change_is_not_in_a_whitespace-insensitive_prose_file"
  const FENCES_CHANGED := "post-review_change_alters_fenced_code_content"
  const WHITESPACE_ONLY := "later_candidate_range_is_whitespace-only_in_reviewed_prose_files"
  const MATERIAL_CHANGE := "material_content_change_after_review"

  function NeutralFollowup(git: Git, reviewed: string, current: string): Result<(bool, string), Failure> {
    if !HasCommit(git, reviewed) || !HasCommit(git, current) then Err(InstrumentFailure)
    else
      match git.ancestry(reviewed, current)
      case ProbeFailed => Err(InstrumentFailure)
      case NotAncestor => Ok((false, NOT_AN_ANCESTOR))
      case Ancestor =>
        var names := git.nameStatus(reviewed, current);
        if names.None? then Err(InstrumentFailure)
        else if Strip(names.value) == "" then Ok((true, NO_CHANGES))
        else
          var rows := Rows(names.value);
          if exists i :: 0 <= i < |rows| && !IsPlainModification(rows[i]) then
            Ok((false, STRUCTURAL_CHANGE))
          else
            var paths := Paths(rows);
            if exists i :: 0 <= i < |paths| && !IsProse(paths[i]) then
              Ok((false, NOT_PROSE))
            else
              match CompareFences(git, reviewed, current, paths)
              case Err(f) => Err(f)
              case Ok(false) => Ok((false, FENCES_CHANGED))
              case Ok(true) =>
                var exit := git.quietDiff(reviewed, current);
                if exit == 0 then Ok((true, WHITESPACE_ONLY))
                else if exit == 1 then Ok((false, MATERIAL_CHANGE))
                else Err(InstrumentFailure)
  }

  // ---------- the verdict ----------

  datatype Verdict = Verdict(current: bool, reason: string, reviewedHead: Option<string>, carriedForward: bool)

  function SubjectDigest(git: Git, mergeBase: string, head: string): Result<string, Failure> {
    if !HasCommit(git, mergeBase) || !HasCommit(git, head) || !git.ancestry(mergeBase, head).Ancestor? then
      Err(InstrumentFailure)
    else
      match git.subject(mergeBase, head)
      case None => Err(InstrumentFailure)
      case Some(digest) => Ok(digest)
  }

  function Evaluate(env: Env, pr: int, head: string, log: seq<Review>): Result<Verdict, Failure> {
    if !HasCommit(env.git, head) then Err(InstrumentFailure)
    else
      match Latest(env, pr, log)
      case Err(f) => Err(f)
      case Ok(None) => Ok(Verdict(false, "no_substantive_review_currentness_marker", None, false))
      case Ok(Some(selected)) => Judge(env, head, selected.marker, Superseding(env, log, selected.review))
  }

  function Judge(env: Env, head: string, marker: Marker, barrier: Result<Option<string>, Failure>)
    : Result<Verdict, Failure>
  {
    match barrier
    case Err(f) => Err(f)
    case Ok(Some(reason)) => Ok(Verdict(false, reason, Some(marker.head), false))
    case Ok(None) =>
      match SubjectDigest(env.git, marker.mergeBase, marker.head)
      case Err(f) => Err(f)
      case Ok(digest) =>
        if digest != marker.subjectSha256 then
          Ok(Verdict(false, "review_subject_digest_mismatch", Some(marker.head), false))
        else if marker.head == head then
          Ok(Verdict(true, "subject_bound_review_matches_current_head", Some(marker.head), false))
        else
          match NeutralFollowup(env.git, marker.head, head)
          case Err(f) => Err(f)
          case Ok((neutral, reason)) => Ok(Verdict(neutral, reason, Some(marker.head), neutral))
  }

  method EvaluateReviews(env: Env, pr: int, head: string, log: seq<Review>) returns (v: Result<Verdict, Failure>)
    ensures v == Evaluate(env, pr, head, log)
  {
    if !HasCommit(env.git, head) {
      return Err(InstrumentFailure);
    }
    var selected := LatestValidReview(env, pr, log);
    match selected {
      case Err(f) => v := Err(f);
      case Ok(None) => v := Ok(Verdict(false, "no_substantive_review_currentness_marker", None, false));
      case Ok(Some(candidate)) =>
        var barrier := SupersedingReviewReason(env, log, candidate.review);
        v := Judge(env, head, candidate.marker, barrier);
    }
  }

  predicate IsCurrent(v: Result<Verdict, Failure>) {
    v.Ok? && v.value.current
  }

  // ---------- exactly when a review is current ----------

  ghost predicate IsWhitespaceRow(git: Git, reviewed: string, current: string, row: seq<string>) {
    IsPlainModification(row) && IsProse(row[1]) && SameFences(git, reviewed, current, row[1]) == Some(true)
  }

  /** The later commits are whitespace in prose: every changed path is a plain
    * modification of a Markdown or text file, its fenced texts are the same on both
    * sides, and git finds no other difference. */
  ghost predicate OnlyProseWhitespace(git: Git, reviewed: string, current: string) {
    var names := git.nameStatus(reviewed, current);
    && names.Some?
    && (Strip(names.value) == "" ||
        (var rows := Rows(names.value);
         && (forall i :: 0 <= i < |rows| ==> IsWhitespaceRow(git, reviewed, current, rows[i]))
         && git.quietDiff(reviewed, current) == 0))
  }

  ghost predicate Carries(git: Git, reviewed: string, current: string) {
    reviewed == current ||
    (HasCommit(git, reviewed) && HasCommit(git, current) && git.ancestry(reviewed, current).Ancestor? &&
     OnlyProseWhitespace(git, reviewed, current))
  }

  ghost predicate SubjectHolds(git: Git, marker: Marker) {
    HasCommit(git, marker.mergeBase) && HasCommit(git, marker.head) &&
    git.ancestry(marker.mergeBase, marker.head).Ancestor? &&
    git.subject(marker.mergeBase, marker.head) == Some(marker.subjectSha256)
  }

  /** Nothing in the log withdraws a marker of that instant or leaves it in doubt. */
  ghost predicate Stands(env: Env, log: seq<Review>, instant: int) {
    forall r :: r in log && Cumulative(r) ==>
      env.clock(r.submittedAt).At? &&
      (Instant(env, r) >= instant ==>
         Identified(r) && env.reader.DeclaredResult(r.body) == Some(MARKER_RESULT))
  }

  lemma NeutralMeansWhitespace(git: Git, reviewed: string, current: string)
    requires reviewed != current
    ensures var n := NeutralFollowup(git, reviewed, current);
      (n.Ok? && n.value.0) <==> Carries(git, reviewed, current)
  {
    hide Rows, Paths, IsProse, IsPlainModification, IsWhitespaceRow, CompareFences, Strip, IsOid, NOT_AN_ANCESTOR, NO_CHANGES,
      STRUCTURAL_CHANGE, NOT_PROSE, FENCES_CHANGED, WHITESPACE_ONLY, MATERIAL_CHANGE;
    var names := git.nameStatus(reviewed, current);
    if HasCommit(git, reviewed) && HasCommit(git, current) && git.ancestry(reviewed, current).Ancestor? &&
       names.Some? && Strip(names.value) != "" {
      RowsDecide(git, reviewed, current, Rows(names.value));
    }
  }

  lemma RowsDecide(git: Git, reviewed: string, current: string, rows: seq<seq<string>>)
    ensures (forall i :: 0 <= i < |rows| ==> IsWhitespaceRow(git, reviewed, current, rows[i]))
       <==> (forall i :: 0 <= i < |rows| ==> IsPlainModification(rows[i])) &&
            (var paths := Paths(rows);
             (forall i :: 0 <= i < |paths| ==> IsProse(paths[i])) &&
             CompareFences(git, reviewed, current, paths) == Ok(true))
  {
    hide IsProse, SameFences, CompareFences;
    if forall i :: 0 <= i < |rows| ==> IsPlainModification(rows[i]) {
      var paths := Paths(rows);
      ComparedFences(git, reviewed, current, paths);
      assert forall i :: 0 <= i < |rows| ==> paths[i] == rows[i][1];
      if forall i :: 0 <= i < |paths| ==>
           IsProse(paths[i]) && SameFences(git, reviewed, current, paths[i]) == Some(true) {
        assert forall i :: 0 <= i < |rows| ==> IsWhitespaceRow(git, reviewed, current, rows[i]);
      }
    }
  }

  lemma NoBarrierMeansStands(env: Env, log: seq<Review>, selected: Review)
    requires env.clock(selected.submittedAt).At?
    ensures Superseding(env, log, selected) == Ok(None) <==> Stands(env, log, Instant(env, selected))
  {
    hide Reader.DeclaredResult, Cumulative, Identified, Outcome;
    var t := Instant(env, selected);
    var bs := Barriers(env, log, t);
    assert bs == [] <==> forall r :: r in log ==> !Withdraws(env, r, t) by {
      if bs != [] {
        assert bs[0] in bs;
      }
      if r :| r in log && Withdraws(env, r, t) {
        assert BarrierOf(env, r) in bs;
      }
    }
    if Stands(env, log, t) {
      assert forall r :: r in log ==> !Breaks(env, r, t) && !Withdraws(env, r, t);
    }
    if Superseding(env, log, selected) == Ok(None) {
      forall r | r in log && Cumulative(r)
        ensures env.clock(r.submittedAt).At?
        ensures Instant(env, r) >= t ==> Identified(r) && env.reader.DeclaredResult(r.body) == Some(MARKER_RESULT)
      {
        assert !Breaks(env, r, t) && !Withdraws(env, r, t);
      }
    }
  }

  /** The gate, read as one statement: a verdict of REVIEW_CURRENT needs, and needs no
    * more than, a newest valid marker whose subject still has its digest, that stands
    * against the whole log and that carries to the head. No instrument consulted may
    * have failed. */
  lemma CurrentExactlyWhen(env: Env, pr: int, head: string, log: seq<Review>)
    ensures IsCurrent(Evaluate(env, pr, head, log))
       <==> HasCommit(env.git, head) && Latest(env, pr, log).Ok? && Latest(env, pr, log).value.Some? &&
            (var selected := Latest(env, pr, log).value.value;
             && MarkerIn(env, pr, selected.review) == Some(selected.marker)
             && selected.marker.head == selected.review.commitOid
             && Stands(env, log, Instant(env, selected.review))
             && SubjectHolds(env.git, selected.marker)
             && Carries(env.git, selected.marker.head, head))
  {
    hide Superseding, Stands, Judge, SubjectHolds, Carries, Latest, MarkerIn;
    var latest := Latest(env, pr, log);
    if latest.Ok? && latest.value.Some? {
      var selected := latest.value.value;
      LatestIsNewest(env, pr, log);
      var barrier := Superseding(env, log, selected.review);
      NoBarrierMeansStands(env, log, selected.review);
      JudgeMeans(env, head, selected.marker, barrier);
    }
  }

  lemma LatestIsNewest(env: Env, pr: int, log: seq<Review>)
    requires Latest(env, pr, log).Ok? && Latest(env, pr, log).value.Some?
    ensures var selected := Latest(env, pr, log).value.value;
      && selected.review in log && MarkerIn(env, pr, selected.review) == Some(selected.marker)
      && selected.marker.head == selected.review.commitOid
      && env.clock(selected.review.submittedAt).At?
      && forall r :: r in log && MarkerIn(env, pr, r).Some? ==>
           env.clock(r.submittedAt).At? && Instant(env, r) <= Instant(env, selected.review)
  {
    hide Reader.ParseMarker;
    var cs := Candidates(env, pr, log);
    assert cs[Newest(env, cs)] in cs;
    forall r | r in log && MarkerIn(env, pr, r).Some?
      ensures env.clock(r.submittedAt).At?
      ensures Instant(env, r) <= Instant(env, cs[Newest(env, cs)].review)
    {
      assert Candidate(r, MarkerIn(env, pr, r).value) in cs;
    }
  }

  lemma JudgeMeans(env: Env, head: string, marker: Marker, barrier: Result<Option<string>, Failure>)
    ensures IsCurrent(Judge(env, head, marker, barrier))
       <==> barrier == Ok(None) && SubjectHolds(env.git, marker) && Carries(env.git, marker.head, head)
  {
    hide NeutralFollowup, OnlyProseWhitespace, HasCommit, Carries;
    if marker.head != head {
      NeutralMeansWhitespace(env.git, marker.head, head);
    } else {
      assert Carries(env.git, head, head) by {
        SameHeadCarries(env.git, head);
      }
    }
  }

  lemma SameHeadCarries(git: Git, head: string)
    ensures Carries(git, head, head)
  {}

  // ---------- over every run of an append-only log ----------

  /** A review that speaks against the change: published, cumulative, and declaring
    * anything but REVIEW_CURRENT, or nothing unambiguous. */
  predicate IsAdverse(env: Env, r: Review) {
    Cumulative(r) && env.reader.DeclaredResult(r.body) != Some(MARKER_RESULT)
  }

  /** Once an adverse review is in the log, whatever is appended later and in whatever
    * order, the verdict is REVIEW_CURRENT only if the log holds a valid marker
    * submitted strictly after it. */
  lemma AdverseNeedsLaterMarker(env: Env, pr: int, head: string, log: seq<Review>, more: seq<Review>, r: Review)
    returns (later: Review)
    requires r in log && IsAdverse(env, r)
    requires IsCurrent(Evaluate(env, pr, head, log + more))
    ensures later in log + more && MarkerIn(env, pr, later).Some?
    ensures env.clock(r.submittedAt).At? && env.clock(later.submittedAt).At?
    ensures Instant(env, r) < Instant(env, later)
  {
    hide Evaluate, Latest, MarkerIn, SubjectHolds, Carries, Cumulative, Identified;
    CurrentExactlyWhen(env, pr, head, log + more);
    LatestIsNewest(env, pr, log + more);
    later := Latest(env, pr, log + more).value.value.review;
    assert r in log + more;
  }

  /** Adding reviews that carry no valid marker never makes a verdict REVIEW_CURRENT. */
  lemma UnmarkedNeverHelps(env: Env, pr: int, head: string, log: seq<Review>, more: seq<Review>)
    requires forall r :: r in more ==> MarkerIn(env, pr, r).None?
    requires IsCurrent(Evaluate(env, pr, head, log + more))
    ensures IsCurrent(Evaluate(env, pr, head, log))
  {
    hide Evaluate, Latest, MarkerIn, SubjectHolds, Carries, Cumulative, Identified;
    UnmarkedKeepLatest(env, pr, log, more);
    CurrentExactlyWhen(env, pr, head, log + more);
    CurrentExactlyWhen(env, pr, head, log);
  }

  lemma {:induction false} UnmarkedKeepLatest(env: Env, pr: int, log: seq<Review>, more: seq<Review>)
    requires forall r :: r in more ==> MarkerIn(env, pr, r).None?
    ensures Latest(env, pr, log + more) == Latest(env, pr, log)
  {
    hide MarkerIn, Latest;
    UnmarkedKeepCandidates(env, pr, log, more);
    SameCandidatesSameLatest(env, pr, log, log + more);
  }

  lemma SameCandidatesSameLatest(env: Env, pr: int, log: seq<Review>, log': seq<Review>)
    requires Candidates(env, pr, log) == Candidates(env, pr, log')
    ensures Latest(env, pr, log) == Latest(env, pr, log')
  {}

  lemma {:induction false} UnmarkedKeepCandidates(env: Env, pr: int, log: seq<Review>, more: seq<Review>)
    requires forall r :: r in more ==> MarkerIn(env, pr, r).None?
    ensures Candidates(env, pr, log + more) == Candidates(env, pr, log)
  {
    hide MarkerIn;
    if more == [] {
      assert log + more == log;
    } else {
      var fewer := more[..|more| - 1];
      assert (log + more)[..|log + more| - 1] == log + fewer;
      assert (log + more)[|log + more| - 1] == more[|more| - 1];
      UnmarkedKeepCandidates(env, pr, log, fewer);
    }
  }

  /** An adverse review never carries a valid marker, so appending one never turns a
    * failing verdict into REVIEW_CURRENT. */
  lemma AdverseNeverHelps(env: Env, pr: int, head: string, log: seq<Review>, r: Review)
    requires IsAdverse(env, r) && !IsCurrent(Evaluate(env, pr, head, log))
    ensures !IsCurrent(Evaluate(env, pr, head, log + [r]))
  {
    hide Evaluate, Cumulative, Reader.DeclaredResult;
    assert MarkerIn(env, pr, r).None?;
    if IsCurrent(Evaluate(env, pr, head, log + [r])) {
      UnmarkedNeverHelps(env, pr, head, log, [r]);
    }
  }

  // ---------- what the order of the log can change ----------

  ghost predicate SameReviews(a: seq<Review>, b: seq<Review>) {
    forall r :: r in a <==> r in b
  }

  /** The withdrawal decision, its reason included, does not depend on log order. */
  lemma BarrierIgnoresOrder(env: Env, log: seq<Review>, log': seq<Review>, selected: Review)
    requires SameReviews(log, log')
    ensures Superseding(env, log, selected) == Superseding(env, log', selected)
  {
    hide Breaks, Withdraws, BarrierOf;
    var reading := env.clock(selected.submittedAt);
    if reading.At? {
      var bs, bs' := Barriers(env, log, reading.instant), Barriers(env, log', reading.instant);
      assert forall b :: b in bs <==> b in bs';
      ReasonOfSet(bs, bs');
    }
  }

  lemma ReasonOfSet(a: seq<Barrier>, b: seq<Barrier>)
    requires forall x :: x in a <==> x in b
    ensures Reason(a) == Reason(b)
  {
    if a == [] {
      if b != [] {
        assert b[0] in b;
      }
    } else {
      assert a[0] in a;
      var t := NewestInstant(a);
      assert t == NewestInstant(b);
      var outcomesA := set x | x in a && x.instant == t :: x.outcome;
      var outcomesB := set x | x in b && x.instant == t :: x.outcome;
      assert outcomesA == outcomesB;
      assert FirstAt(a, t).outcome in outcomesA && FirstAt(b, t).outcome in outcomesA;
    }
  }

  /** No two reviews with valid markers share the instant of the newest one. */
  ghost predicate NewestIsUnique(env: Env, pr: int, log: seq<Review>) {
    var latest := Latest(env, pr, log);
    latest.Ok? && latest.value.Some? ==>
      forall r | r in log && MarkerIn(env, pr, r).Some? && env.clock(r.submittedAt).At? ::
        Instant(env, r) == Instant(env, latest.value.value.review) ==> r == latest.value.value.review
  }

  /** The whole verdict ignores log order, unless valid markers tie for the newest. */
  lemma VerdictIgnoresOrder(env: Env, pr: int, head: string, log: seq<Review>, log': seq<Review>)
    requires SameReviews(log, log') && NewestIsUnique(env, pr, log)
    ensures Evaluate(env, pr, head, log) == Evaluate(env, pr, head, log')
  {
    hide Superseding, Judge, Latest;
    LatestIgnoresOrder(env, pr, log, log');
    var latest := Latest(env, pr, log);
    if latest.Ok? && latest.value.Some? {
      BarrierIgnoresOrder(env, log, log', latest.value.value.review);
    }
  }

  lemma LatestIgnoresOrder(env: Env, pr: int, log: seq<Review>, log': seq<Review>)
    requires SameReviews(log, log') && NewestIsUnique(env, pr, log)
    ensures Latest(env, pr, log) == Latest(env, pr, log')
  {
    hide MarkerIn;
    var cs, cs' := Candidates(env, pr, log), Candidates(env, pr, log');
    assert forall c :: c in cs <==> c in cs';
    assert (cs != [] ==> cs[0] in cs) && (cs' != [] ==> cs'[0] in cs');
    if cs != [] && Timed(env, cs) {
      var best, best' := cs[Newest(env, cs)], cs'[Newest(env, cs')];
      assert best in cs && best' in cs';
      assert Instant(env, best.review) == Instant(env, best'.review);
    }
  }

  lemma LastCandidate(env: Env, pr: int, front: seq<Review>, last: Review)
    ensures Candidates(env, pr, front + [last])
         == Candidates(env, pr, front)
            + match MarkerIn(env, pr, last) case None => [] case Some(marker) => [Candidate(last, marker)]
  {
    hide MarkerIn;
    assert (front + [last])[..|front|] == front;
  }

  lemma {:induction false} CandidatesBefore(env: Env, pr: int, r: Review, log: seq<Review>)
    requires MarkerIn(env, pr, r).Some?
    ensures Candidates(env, pr, [r] + log) == [Candidate(r, MarkerIn(env, pr, r).value)] + Candidates(env, pr, log)
  {
    hide MarkerIn, Candidates;
    if log == [] {
      NoCandidates(env, pr);
      LastCandidate(env, pr, [], r);
      assert [] + [r] == [r] + log;
    } else {
      var n := |log| - 1;
      CandidatesBefore(env, pr, r, log[..n]);
      LastCandidate(env, pr, log[..n], log[n]);
      LastCandidate(env, pr, [r] + log[..n], log[n]);
      assert log == log[..n] + [log[n]] && [r] + log == [r] + log[..n] + [log[n]];
    }
  }

  lemma NoCandidates(env: Env, pr: int)
    ensures Candidates(env, pr, []) == []
  {}

  lemma NewestIs(env: Env, cs: seq<Candidate>, k: nat)
    requires Timed(env, cs) && k < |cs|
    requires forall j :: 0 <= j < |cs| ==> Instant(env, cs[j].review) <= Instant(env, cs[k].review)
    requires forall j :: 0 <= j < k ==> Instant(env, cs[j].review) < Instant(env, cs[k].review)
    ensures Newest(env, cs) == k
  {
    hide Newest;
    var n := Newest(env, cs);
    assert Instant(env, cs[n].review) <= Instant(env, cs[k].review);
    assert Instant(env, cs[k].review) <= Instant(env, cs[n].review);
  }

  /** A review with a valid marker that is listed first is judged if no valid marker is newer:
    * a tie goes to the first. */
  lemma TieGoesToTheFirst(env: Env, pr: int, r: Review, log: seq<Review>)
    requires MarkerIn(env, pr, r).Some? && env.clock(r.submittedAt).At? && Latest(env, pr, log).Ok?
    requires var latest := Latest(env, pr, log).value;
      latest.Some? ==> env.clock(latest.value.review.submittedAt).At? && Instant(env, latest.value.review) <= Instant(env, r)
    ensures Latest(env, pr, [r] + log) == Ok(Some(Candidate(r, MarkerIn(env, pr, r).value)))
  {
    hide MarkerIn, Newest;
    var cs := Candidates(env, pr, log);
    var first := Candidate(r, MarkerIn(env, pr, r).value);
    CandidatesBefore(env, pr, r, log);
    var all := [first] + cs;
    forall j | 0 <= j < |all|
      ensures env.clock(all[j].review.submittedAt).At? && Instant(env, all[j].review) <= Instant(env, r)
    {
      if j > 0 {
        assert all[j] == cs[j - 1] && cs[j - 1] in cs;
      }
    }
    assert all[0] == first;
    NewestIs(env, all, 0);
  }

  /** The review has a valid marker and is as new as the one that is selected. */
  ghost predicate Tied(env: Env, pr: int, log: seq<Review>, r: Review) {
    var latest := Latest(env, pr, log);
    && latest.Ok? && latest.value.Some?
    && r in log && MarkerIn(env, pr, r).Some?
    && env.clock(r.submittedAt).At? && env.clock(latest.value.value.review.submittedAt).At?
    && Instant(env, r) == Instant(env, latest.value.value.review)
  }

  /** The same reviews, each as often, in another order. */
  ghost predicate Reorders(log: seq<Review>, log': seq<Review>) {
    multiset(log) == multiset(log')
  }

  lemma ReorderedHasSame(log: seq<Review>, log': seq<Review>)
    requires Reorders(log, log')
    ensures SameReviews(log, log')
  {
    assert forall r :: r in log <==> r in multiset(log);
    assert forall r :: r in log' <==> r in multiset(log');
  }

  /** The log with its review at k moved to the front. */
  function MovedFirst(log: seq<Review>, k: nat): seq<Review>
    requires k < |log|
  {
    [log[k]] + Without(log, k)
  }

  function Without(log: seq<Review>, k: nat): (rest: seq<Review>)
    requires k < |log|
    ensures forall r :: r in rest ==> r in log
  {
    log[..k] + log[k + 1..]
  }

  lemma MovedReorders(log: seq<Review>, k: nat)
    requires k < |log|
    ensures Reorders(log, MovedFirst(log, k))
  {
    assert log == log[..k] + [log[k]] + log[k + 1..];
  }

  /** What is left of a log without one of its newest reviews is timed and no newer. */
  lemma RestIsNoNewer(env: Env, pr: int, log: seq<Review>, k: nat)
    requires k < |log| && Tied(env, pr, log, log[k])
    ensures var rest := Latest(env, pr, Without(log, k));
      rest.Ok? && (rest.value.Some? ==>
        env.clock(rest.value.value.review.submittedAt).At? && Instant(env, rest.value.value.review) <= Instant(env, log[k]))
  {
    hide MarkerIn, Newest;
    var cs, rest := Candidates(env, pr, log), Candidates(env, pr, Without(log, k));
    assert forall c :: c in rest ==> c in cs;
    assert Timed(env, rest);
    if rest != [] {
      var c := rest[Newest(env, rest)];
      assert c in rest && c in cs;
      assert Instant(env, c.review) <= Instant(env, cs[Newest(env, cs)].review);
    }
  }

  /** A review that ties for the newest is the one that is judged once it is listed first. */
  lemma TiedIsJudgedFirst(env: Env, pr: int, log: seq<Review>, k: nat)
    requires k < |log| && Tied(env, pr, log, log[k])
    ensures Latest(env, pr, MovedFirst(log, k)) == Ok(Some(Candidate(log[k], MarkerIn(env, pr, log[k]).value)))
  {
    hide Latest, MarkerIn, Without;
    RestIsNoNewer(env, pr, log, k);
    TieGoesToTheFirst(env, pr, log[k], Without(log, k));
  }

  /** Which marker is judged is the same for every order of the log exactly when the newest
    * one is unique. */
  lemma LatestIgnoresOrderExactlyWhen(env: Env, pr: int, log: seq<Review>)
    ensures NewestIsUnique(env, pr, log)
       <==> forall log' :: Reorders(log, log') ==> Latest(env, pr, log') == Latest(env, pr, log)
  {
    hide Latest, MarkerIn, Reorders, MovedFirst;
    if NewestIsUnique(env, pr, log) {
      forall log' | Reorders(log, log')
        ensures Latest(env, pr, log') == Latest(env, pr, log)
      {
        ReorderedHasSame(log, log');
        LatestIgnoresOrder(env, pr, log, log');
      }
    } else {
      var best := Latest(env, pr, log).value.value.review;
      LatestIsNewest(env, pr, log);
      var r :| r in log && MarkerIn(env, pr, r).Some? && env.clock(r.submittedAt).At? &&
               Instant(env, r) == Instant(env, best) && r != best;
      var k :| 0 <= k < |log| && log[k] == r;
      TiedIsJudgedFirst(env, pr, log, k);
      MovedReorders(log, k);
    }
  }

  /** The verdict that one of the log's reviews would get if it were the selected one. */
  ghost function VerdictOn(env: Env, pr: int, head: string, log: seq<Review>, r: Review): Result<Verdict, Failure>
    requires MarkerIn(env, pr, r).Some?
  {
    Judge(env, head, MarkerIn(env, pr, r).value, Superseding(env, log, r))
  }

  /** All reviews that tie for the newest get the verdict that the log gets. */
  ghost predicate TiesAgree(env: Env, pr: int, head: string, log: seq<Review>) {
    forall r :: Tied(env, pr, log, r) ==> VerdictOn(env, pr, head, log, r) == Evaluate(env, pr, head, log)
  }

  /** The verdict is the same for every order of the log exactly when the reviews that tie
    * for the newest agree on it. */
  lemma VerdictIgnoresOrderExactlyWhen(env: Env, pr: int, head: string, log: seq<Review>)
    ensures (forall log' :: Reorders(log, log') ==> Evaluate(env, pr, head, log') == Evaluate(env, pr, head, log))
       <==> !HasCommit(env.git, head) || TiesAgree(env, pr, head, log)
  {
    hide Latest, MarkerIn, Judge, Superseding, Evaluate, HasCommit, VerdictOn, Reorders, MovedFirst;
    NoHeadNoVerdict(env, pr, head, log);
    if HasCommit(env.git, head) {
      if TiesAgree(env, pr, head, log) {
        forall log' | Reorders(log, log')
          ensures Evaluate(env, pr, head, log') == Evaluate(env, pr, head, log)
        {
          ReorderedHasSame(log, log');
          ReorderedVerdict(env, pr, head, log, log');
        }
      } else {
        var r :| Tied(env, pr, log, r) && VerdictOn(env, pr, head, log, r) != Evaluate(env, pr, head, log);
        var k :| 0 <= k < |log| && log[k] == r;
        VerdictOnFirst(env, pr, head, log, k);
        MovedReorders(log, k);
      }
    }
  }

  lemma NoHeadNoVerdict(env: Env, pr: int, head: string, log: seq<Review>)
    ensures !HasCommit(env.git, head) ==> forall log' :: Evaluate(env, pr, head, log') == Evaluate(env, pr, head, log)
  {
    hide HasCommit, Latest, Judge, Superseding;
  }

  lemma VerdictOnFirst(env: Env, pr: int, head: string, log: seq<Review>, k: nat)
    requires HasCommit(env.git, head) && k < |log| && Tied(env, pr, log, log[k])
    ensures Evaluate(env, pr, head, MovedFirst(log, k)) == VerdictOn(env, pr, head, log, log[k])
  {
    hide Latest, MarkerIn, Judge, Superseding, HasCommit, MovedFirst;
    TiedIsJudgedFirst(env, pr, log, k);
    MovedReorders(log, k);
    ReorderedHasSame(log, MovedFirst(log, k));
    BarrierIgnoresOrder(env, log, MovedFirst(log, k), log[k]);
  }

  lemma ReorderedVerdict(env: Env, pr: int, head: string, log: seq<Review>, log': seq<Review>)
    requires HasCommit(env.git, head) && SameReviews(log, log') && TiesAgree(env, pr, head, log)
    ensures Evaluate(env, pr, head, log') == Evaluate(env, pr, head, log)
  {
    hide Latest, MarkerIn, Judge, Superseding, HasCommit;
    SameOutcome(env, pr, log, log');
    var latest' := Latest(env, pr, log');
    if latest'.Ok? && latest'.value.Some? {
      var r := latest'.value.value.review;
      LatestIsNewest(env, pr, log);
      LatestIsNewest(env, pr, log');
      assert Tied(env, pr, log, r);
      BarrierIgnoresOrder(env, log, log', r);
      assert Evaluate(env, pr, head, log') == VerdictOn(env, pr, head, log, r);
    }
  }

  /** Reordering never changes whether there is a selection or a failure. */
  lemma SameOutcome(env: Env, pr: int, log: seq<Review>, log': seq<Review>)
    requires SameReviews(log, log')
    ensures var l, l' := Latest(env, pr, log), Latest(env, pr, log');
      l.Ok? == l'.Ok? && (l.Ok? ==> l.value.Some? == l'.value.Some?) && (l.Err? ==> l == l')
  {
    hide MarkerIn, Newest;
    var cs, cs' := Candidates(env, pr, log), Candidates(env, pr, log');
    assert forall c :: c in cs <==> c in cs';
    assert (cs != [] ==> cs[0] in cs) && (cs' != [] ==> cs'[0] in cs');
  }

  /** Git as it looks when the first marker's subject is intact and no other one is. */
  function OnlySubject(marker: Marker): Git {
    Git(
      (oid: string) => true,
      (base: string, head: string) => Ancestor,
      (base: string, head: string) => Some(if head == marker.head then marker.subjectSha256 else ""),
      (from: string, to: string) => None,
      (rev: string, path: string) => None,
      (from: string, to: string) => 1)
  }

  /** The order of a tie can decide the verdict: for any two identified reviews at one instant
    * whose valid markers name different heads, there is a state of the repository in which
    * listing the one first is current and listing the other first is not. */
  lemma TieFlipsVerdict(env: Env, pr: int, a: Review, b: Review)
    requires MarkerIn(env, pr, a).Some? && MarkerIn(env, pr, b).Some?
    requires MarkerIn(env, pr, a).value.head != MarkerIn(env, pr, b).value.head
    requires Identified(a) && Identified(b)
    requires env.clock(a.submittedAt).At? && env.clock(b.submittedAt) == env.clock(a.submittedAt)
    ensures var marker := MarkerIn(env, pr, a).value;
      var flipped := env.(git := OnlySubject(marker));
      && IsCurrent(Evaluate(flipped, pr, marker.head, [a, b]))
      && !IsCurrent(Evaluate(flipped, pr, marker.head, [b, a]))
  {
    hide Latest, Stands, SubjectHolds, Evaluate, HasSections, Cumulative, Identified, IsOid, IsDigest;
    var ma, mb := MarkerIn(env, pr, a).value, MarkerIn(env, pr, b).value;
    var flipped, head := env.(git := OnlySubject(ma)), ma.head;
    OneReview(flipped, pr, a);
    OneReview(flipped, pr, b);
    TieGoesToTheFirst(flipped, pr, a, [b]);
    TieGoesToTheFirst(flipped, pr, b, [a]);
    assert [a] + [b] == [a, b] && [b] + [a] == [b, a];
    CurrentExactlyWhen(flipped, pr, head, [a, b]);
    CurrentExactlyWhen(flipped, pr, head, [b, a]);
    BothStand(flipped, pr, a, b);
    Subjects(ma, mb);
    MarkedOid(flipped, pr, a);
    MarkedOid(flipped, pr, b);
  }

  lemma OneReview(env: Env, pr: int, r: Review)
    requires MarkerIn(env, pr, r).Some? && env.clock(r.submittedAt).At?
    ensures Latest(env, pr, [r]) == Ok(Some(Candidate(r, MarkerIn(env, pr, r).value)))
  {
    hide MarkerIn;
    NoCandidates(env, pr);
    TieGoesToTheFirst(env, pr, r, []);
    assert [r] + [] == [r];
  }

  lemma MarkedOid(env: Env, pr: int, r: Review)
    requires MarkerIn(env, pr, r).Some?
    ensures var m := MarkerIn(env, pr, r).value;
      IsOid(m.head) && IsOid(m.mergeBase) && IsDigest(m.subjectSha256) && m.head == r.commitOid
  {
    hide HasSections, IsOid, IsDigest, Reader.DeclaredResult, Reader.ParseMarker;
  }

  lemma BothStand(env: Env, pr: int, a: Review, b: Review)
    requires MarkerIn(env, pr, a).Some? && MarkerIn(env, pr, b).Some? && Identified(a) && Identified(b)
    requires env.clock(a.submittedAt).At? && env.clock(b.submittedAt).At?
    ensures forall t :: Stands(env, [a, b], t) && Stands(env, [b, a], t)
  {
    hide HasSections, Identified, Reader.DeclaredResult, Reader.ParseMarker;
    assert forall r :: r in [a, b] ==> r == a || r == b;
    assert forall r :: r in [b, a] ==> r == a || r == b;
  }

  lemma Subjects(ma: Marker, mb: Marker)
    requires ma.head != mb.head
    ensures var git := OnlySubject(ma);
      && (IsOid(ma.head) && IsOid(ma.mergeBase) ==> HasCommit(git, ma.head) && SubjectHolds(git, ma))
      && (IsDigest(mb.subjectSha256) ==> !SubjectHolds(git, mb))
  {
    hide IsHex;
  }
}
