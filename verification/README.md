# unsafe-review verification model

unsafe-review analyses unsafe Rust code and ships a verification layer around that analysis: scripts and
`xtask` commands that decide whether a review still counts, whether generated artifacts are consistent, which
local checks must run, and whether reports and label ledgers add up. This project models that layer in Dafny
and proves what it promises. `dafny verify dfyconfig.toml` checks all of it.

One module stands for one component of the repository.

| module | models |
|---|---|
| `ReviewGate`, `ReviewBody`, `Fences`, `PyText` | the semantic-review gate: the review log, the withdrawal rule, the carry-forward rule, markers, declarations and the two Markdown fence readers |
| `ReviewTexts`, `FenceTexts`, `CarryTexts` | the same gate told on the text of reviews and of what git prints: headings, declarations, fences, reasons, changed files |
| `GateExamples` | concrete inputs on which that gate does less than its description says |
| `CommentPlan`, `Telemetry` | the comment-plan verifier and the histograms drawn from an accepted plan |
| `TargetFeature`, `Shape`, `Cards` | `target_feature` grouping, the literal-insensitive shape, eligibility and budget keys |
| `PlanReasons` | which cards may be planned, which reasons may be given and who represents a group, told on the fields of cards |
| `RepairQueue` | the repair-queue verifier, its card index and the counts recomputed from it |
| `SemVerGate`, `SemVerOrder` | the producer version gate, identifiers and the order of precedence |
| `WitnessPlan` | the witness-plan section scanner |
| `Glob` | greedy matching of patterns with several stars |
| `CivilDate` | days since 1970 to a calendar date, and timestamps |
| `CountRewrite`, `AuditCounts`, `AuditTexts` | rewriting count lines and prose numbers in reports |
| `StepCollector`, `StepTexts` | the streaming reader of a workflow's steps, and what it makes of written ones |
| `LabelLedgers` | calibration label ledgers: ownership, coverage, counts |
| `LocalPlan`, `LocalPaths` | the conservative local check planner, its diff and its receipt, and what it selects told on paths and check ids |
| `FuzzInput` | input clamping, input splitting and diff generation of the fuzz target |
| `Text`, `RustText`, `StringSets`, `Lists`, `Wrappers` | the parts of the standard libraries that the code relies on |

The code's loops are methods with loop invariants; each is tied by its `ensures` to a specification that does
not mention the loop, and the lemmas are about that specification. Git, the SHA-256 digest, the clock reading of
timestamps, the JSON marker decoder and check dispatch are functions passed in, so every theorem holds for
whatever they answer, failures included.

Where the code and its own documentation part ways, the model follows the code and the difference is a lemma:

- A `target_feature` group may be represented by any of its members: every selectable card for which a comment can be
  written within the word limit can be the only one that an accepted plan comments on
  (`CommentPlan.AnySelectableMayBePlanned`), so accepted plans keep to the groups' representatives exactly when no omitted
  card is of that kind, or no plan can be accepted at all because some card has no place or no repair entry
  (`CommentPlan.PlansAvoidOmittedExactlyWhen`).
- Fenced content is not compared byte for byte. What is compared are the lines of each block: which line breaks they
  end with is invisible (`Fences.SameFencedTexts`, `Fences.BytesAgreeExactlyWhen`), and an empty block equals a block that
  holds one empty line (`Fences.EmptyBodyBlindSpot`). Where git's diff is silent too, the review carries over: it does
  when a file goes from Windows to Unix line ends or back (`GateExamples.FencedChangeCarriesOver`) and when an empty line
  is put into an empty block (`GateExamples.EmptyBlockCarriesOver`).
- White space at the ends of what git prints is dropped, and with it blanks that end the last path
  (`CarryTexts.TrailingBlankIsLost`); rows read back exactly when none is there (`CarryTexts.RowsReadBackExactlyWhen`).
- Blanking fences is idempotent on lines; on texts it is so exactly when the blanked text does not end in a blank line
  (`Fences.OutsideTwice`).
- The verdict depends on log order when valid markers tie for the newest: it is the same for every order of the log
  exactly when all the tied reviews would get the same verdict (`ReviewGate.VerdictIgnoresOrderExactlyWhen`), and a log of
  two reviews, each with its marker comment, whose verdict flips with their order is
  `GateExamples.SwappedTieFlipsVerdict`.
- A prose number that follows a character outside ASCII makes the count rewriter cut that character and stop
  (`AuditCounts.WideCharacterBeforeNumber`).
- Count lines are all brought up to date in place exactly when the prefixes first occur on distinct lines
  (`CountRewrite.CountsInPlaceExactlyWhen`). Of two prefixes on one line, depending on their order, one makes the rewrite
  fail (`CountRewrite.SharedLineLosesACount`), is dropped although the rewrite succeeds
  (`CountRewrite.SharedLineDropsACount`), or is written on a later line (`CountRewrite.SharedLineMovesACount`). Exactly when
  the rewrite succeeds, and exactly when all counts then read back, is read off the original lines in
  `CountRewrite.RewriteSucceedsExactlyWhen` and `CountRewrite.CountsReadBackExactlyWhen`.
- Every heading at the start of a line gets a section, in every text, exactly when the card's heading cannot begin again on
  a later line of its own (`WitnessPlan.HeadingsAreFoundExactlyWhen`); otherwise there is a text of which a section is
  missing (`WitnessPlan.OverlapLosesASection`).
- A diff that grows keeps every selected check unless it was empty and trusted: then it keeps them exactly when it stays
  empty, becomes unsafe, or triggers every optional check (`LocalPlan.GrowingKeepsExactlyWhen`).
- Source lines that keep a carriage return do not read back from the generated diff (`FuzzInput.HunkReadsBack`), as the
  source that is the letter a and a carriage return shows (`FuzzInput.ReturnIsLost`).
- All timestamps of years below a limit sort as strings in time order exactly when the limit is at most 10000
  (`CivilDate.SortsExactlyBelow`), and the year counter overflows for day numbers past the last 32-bit year
  (`CivilDate.DaysToYmd`).

## Model

| member | source | states |
|---|---|---|
| ReviewGate.CurrentExactlyWhen | scripts/ci/check-pr-semantic-review-currentness.py:520-599 | the verdict is REVIEW_CURRENT exactly when the newest valid marker is bound to its own review commit, its digest over an ancestor merge base still matches, no later review withdraws it, and the head is the reviewed one or follows it by prose white space only; any failed instrument excludes it |
| ReviewGate.EvaluateReviews | scripts/ci/check-pr-semantic-review-currentness.py:520-599 | the verdict as a function of the log, the head and the instruments |
| ReviewGate.LatestValidReview | scripts/ci/check-pr-semantic-review-currentness.py:350-364 | the loop picks the first of the newest reviews that carry a valid marker, and fails on an unreadable time |
| ReviewGate.LatestIsNewest | scripts/ci/check-pr-semantic-review-currentness.py:350-375 | the selected marker is valid, in the log, and no valid marker is newer |
| ReviewGate.SupersedingReviewReason | scripts/ci/check-pr-semantic-review-currentness.py:378-415 | the loop over later reviews yields the newest barriers' common outcome or reports their disagreement |
| ReviewGate.NoBarrierMeansStands | scripts/ci/check-pr-semantic-review-currentness.py:378-415 | no barrier is reported exactly when every cumulative review at or after the instant declares REVIEW_CURRENT and none is unplaceable |
| ReviewTexts.CumulativeMeans | scripts/ci/check-pr-semantic-review-currentness.py:305-310 | a body is cumulative exactly when its unfenced lines show the five required headings and one of "## Findings" and "## No material findings" |
| ReviewTexts.DeclaresExactlyWhen | scripts/ci/check-pr-semantic-review-currentness.py:274-302 | a body declares a result exactly when one unfenced line is the result heading and, up to the next heading of that level, one list item names a result, which is that one |
| ReviewTexts.ResultMeans | scripts/ci/check-pr-semantic-review-currentness.py:48-51 | a line is the result heading exactly when it is blanks, two number signs, blanks, the title and blanks |
| ReviewTexts.ItemMeans | scripts/ci/check-pr-semantic-review-currentness.py:52-53 | a line lists x exactly when it is blanks, a bullet, blanks and x, a run of capitals at whose end no word goes on |
| ReviewTexts.LastSpeakersDecide | scripts/ci/check-pr-semantic-review-currentness.py:390-415 | the reason names the outcome on which the last reviews agree that speak against the marker, and is ambiguous when they do not |
| ReviewTexts.LaterReviewIsNamed | scripts/ci/check-pr-semantic-review-currentness.py:378-415 | with such a review at or after the marker's instant the verdict is not current, names its outcome and the reviewed head, and carries nothing forward |
| ReviewTexts.OneSpeakerIsEnough | scripts/ci/check-pr-semantic-review-currentness.py:378-415 | one such review, or one that cannot be placed or identified, keeps the verdict from being current, whatever else is in the log |
| ReviewTexts.MissingHeadingChangesNothing | scripts/ci/check-pr-semantic-review-currentness.py:305-310 | a review that misses one of the headings changes the verdict of no log, wherever it stands |
| ReviewTexts.VerdictSays | scripts/ci/check-pr-semantic-review-currentness.py:520-599 | the verdict's reason, reviewed head and carried-forward flag in every case, in the order of the cases |
| ReviewGate.NeutralMeansWhitespace | scripts/ci/check-pr-semantic-review-currentness.py:467-517 | a follow-up is neutral exactly when the head is a descendant and every changed path is a plain modification of a .md or .txt file with equal fenced blocks and an empty whitespace-insensitive diff |
| CarryTexts.RowsReadBackExactlyWhen | scripts/ci/check-pr-semantic-review-currentness.py:483-485 | rows of fields without tabs and line breaks read back from what git prints exactly when no white space stands at the ends of the text and no row is a single empty field |
| CarryTexts.TrailingBlankIsLost | scripts/ci/check-pr-semantic-review-currentness.py:483-485 | a concrete row whose path ends in a blank and is read without it |
| CarryTexts.ProseMeans | scripts/ci/check-pr-semantic-review-currentness.py:486-489 | the prose files are those whose path ends in .md or .txt, in any case, behind at least one character of the file name |
| CarryTexts.CarriedExactlyWhen | scripts/ci/check-pr-semantic-review-currentness.py:467-517 | for every printed list of rows, a later head is neutral exactly when each row modifies such a file with equal fenced blocks and git finds nothing but white space; one other row anywhere excludes it |
| CarryTexts.FollowupAnswers | scripts/ci/check-pr-semantic-review-currentness.py:467-517 | the answer and its reason in every case, in the order of the cases |
| ReviewGate.AdverseNeedsLaterMarker | scripts/ci/check-pr-semantic-review-currentness.py:378-415 | over every continuation of the log, once an adverse review is in it REVIEW_CURRENT needs a valid marker strictly later than that review |
| ReviewGate.AdverseNeverHelps | scripts/ci/check-pr-semantic-review-currentness.py:313-415 | appending an adverse review never turns a failing verdict into REVIEW_CURRENT |
| ReviewGate.UnmarkedNeverHelps | scripts/ci/check-pr-semantic-review-currentness.py:350-415 | no reviews without a valid marker ever make a verdict REVIEW_CURRENT |
| ReviewGate.BarrierIgnoresOrder | scripts/ci/check-pr-semantic-review-currentness.py:378-415 | the withdrawal decision and its reason depend on the set of reviews, not on log order |
| ReviewGate.LatestIgnoresOrderExactlyWhen | scripts/ci/check-pr-semantic-review-currentness.py:350-375 | every reordering of the log, each review kept as often as it is there, selects the same marker exactly when no other valid marker ties with the newest |
| ReviewGate.VerdictIgnoresOrderExactlyWhen | scripts/ci/check-pr-semantic-review-currentness.py:520-599 | the verdict is the same for every reordering of the log, in the same sense, exactly when the head is no commit or every review that ties for the newest leads to the verdict the log gets |
| ReviewGate.VerdictIgnoresOrder | scripts/ci/check-pr-semantic-review-currentness.py:520-599 | in particular, two logs with the same reviews get one verdict when the newest marker is unique |
| ReviewGate.TieGoesToTheFirst | scripts/ci/check-pr-semantic-review-currentness.py:350-364 | a valid marker that is at least as new as all others and listed before them is the one that is judged |
| ReviewGate.TieFlipsVerdict | scripts/ci/check-pr-semantic-review-currentness.py:520-599 | for any two reviews with valid markers at one instant and different heads there is a repository state in which the log is current in one order and not in the other |
| GateExamples.SwappedTieFlipsVerdict | scripts/ci/check-pr-semantic-review-currentness.py:313-364 | two concrete reviews at one instant, whose texts hold the sections, the declaration and one marker comment each, and whose verdict flips when they are listed the other way round |
| ReviewBody.Reader.ParseMarker | scripts/ci/check-pr-semantic-review-currentness.py:313-347 | a marker is returned exactly when the body has all sections, declares REVIEW_CURRENT, and holds one well-formed marker for this pull request and this review commit |
| ReviewBody.DeclarationIsUnfenced | scripts/ci/check-pr-semantic-review-currentness.py:274-302 | a declaration is the only result listed in the section of the one result heading outside all fenced blocks |
| Fences.OutsideFences | scripts/ci/check-pr-semantic-review-currentness.py:246-271 | the blanking reader keeps line count and position and empties exactly the lines of the blocks |
| Fences.FencedBlocks | scripts/ci/check-pr-semantic-review-currentness.py:418-444 | the collecting reader returns exactly the body lines of the same blocks, in order |
| Fences.MarkMeans | scripts/ci/check-pr-semantic-review-currentness.py:228-243 | what a line can open or close is what the shared fence match and closing rule say |
| FenceTexts.FenceMeans | scripts/ci/check-pr-semantic-review-currentness.py:26-26 | a line is a fence exactly when it is blanks, at least three backticks or three tildes, and a rest that does not go on with them; every other line is plain |
| FenceTexts.ClosesMeans | scripts/ci/check-pr-semantic-review-currentness.py:228-243 | a fence closes another exactly when nothing but blanks follows it and it is of the same character and no shorter |
| FenceTexts.WrittenBlockIsRead | scripts/ci/check-pr-semantic-review-currentness.py:418-444 | a written block, its opening fence with any info string, is read as one block whose body is exactly its lines, whatever other fences they hold |
| Fences.Consume | scripts/ci/check-pr-semantic-review-currentness.py:246-271 | both readers move through the same states line by line, so they agree on every line |
| Fences.BlocksAreTheOnlyOnes | scripts/ci/check-pr-semantic-review-currentness.py:228-271 | the readers' blocks are the only ones that fit the closing rule of section 4.5 of CommonMark |
| Fences.BlankingSettles | scripts/ci/check-pr-semantic-review-currentness.py:246-271 | on line lists blanking is idempotent and what it leaves has no blocks |
| Fences.NothingFencedOutside | scripts/ci/check-pr-semantic-review-currentness.py:246-271 | the collecting reader finds nothing in a blanked text |
| Fences.OutsideTwice | scripts/ci/check-pr-semantic-review-currentness.py:246-271 | on texts blanking is idempotent exactly when the result does not end in a blank line |
| Fences.SameFencedTexts | scripts/ci/check-pr-semantic-review-currentness.py:418-464 | two texts compare equal exactly when the raw contents of their blocks agree after every line break is read as one, up to an empty content against a single line break |
| Fences.BytesAgreeExactlyWhen | scripts/ci/check-pr-semantic-review-currentness.py:418-444 | the blocks agree byte for byte exactly when they compare equal and each ends its lines with the same line breaks; so blocks that differ only in those breaks are the ones that compare equal unseen |
| Fences.LineBreaksAreInvisible | scripts/ci/check-pr-semantic-review-currentness.py:436-441 | for every line and every two different line breaks, one-line blocks written with them differ in bytes and compare equal |
| Fences.EmptyBodyBlindSpot | scripts/ci/check-pr-semantic-review-currentness.py:418-444 | two concrete texts, an empty block and a block of one empty line, whose contents differ and compare equal |
| Fences.LineEndsAreInvisible | scripts/ci/check-pr-semantic-review-currentness.py:418-444 | a file of any lines compares equal with Windows and with Unix line ends, and its fenced bytes are the same exactly when no block has a line |
| GateExamples.FencedChangeCarriesOver | scripts/ci/check-pr-semantic-review-currentness.py:467-517 | with git silent on white space, changing a file of any lines from Windows to Unix line ends or back is a neutral follow-up, although fenced bytes change as soon as some block has a line |
| GateExamples.EmptyBlockCarriesOver | scripts/ci/check-pr-semantic-review-currentness.py:467-517 | with git silent on blank lines, putting an empty line into an empty block, or taking it out, is a neutral follow-up |
| GateExamples.WindowsLineEndsCarryOver | scripts/ci/check-pr-semantic-review-currentness.py:467-517 | the same for the concrete texts with CRLF and LF |
| CommentPlan.CheckCommentPlanArtifact | xtask/src/advisory_artifacts.rs:6745-7121 | a plan is accepted exactly when it is acceptable: every comment and every left-out entry sound, no repeats, all cards covered, summary right |
| CommentPlan.PlanPartitionsCards | xtask/src/advisory_artifacts.rs:6745-7121 | an accepted plan lists every card exactly once, planned or left out, plans at most three, and its counts add up |
| CommentPlan.PlannedCommentsDiffer | xtask/src/advisory_artifacts.rs:6800-6860 | planned comments differ in card, location and budget key, never share a target_feature group, and are all eligible |
| CommentPlan.ReasonDeterminesCode | xtask/src/advisory_artifacts.rs:9016-9185 | the two decision chains agree: an accepted reason determines its code |
| CommentPlan.CodesAreTrue | xtask/src/advisory_artifacts.rs:9016-9185 | an accepted code says something true of the card and the selection it is judged against |
| CommentPlan.ReasonCodesAreTrue | xtask/src/advisory_artifacts.rs:9016-9185 | in an accepted plan every left-out card carries a code that is true of the whole plan |
| PlanReasons.SelectableExactlyWhen | xtask/src/advisory_artifacts.rs:8728-8758 | the cards that may be planned are those of an actionable class other than static_unknown, at an operation, not of low or unknown confidence, and of high priority or confidence |
| PlanReasons.PlainReasonFits | xtask/src/advisory_artifacts.rs:9040-9071 | the plain reason is the first that applies to the card's own fields: hunk, class, declaration, fallback site, confidence, priority, sibling, budget, policy |
| PlanReasons.CoveredMeans | xtask/src/advisory_artifacts.rs:8760-8800 | a declaration or fallback site with a named owner is covered exactly when another changed card at an operation has its path and owner |
| PlanReasons.PairAcceptedExactlyWhen | xtask/src/advisory_artifacts.rs:9016-9185 | exactly these reasons, each with its code, are accepted: grouping for an omitted card, else coverage, or the plain reason under a placeholder owner, else the plain reason |
| PlanReasons.AcceptedReasonsFit | xtask/src/advisory_artifacts.rs:9016-9185 | in every accepted plan the reason of a left-out card is the one its fields call for, grouping first, then coverage, then the plain reasons; only an owner called unknown leaves the last two open |
| PlanReasons.SameBudgetExactlyWhen | xtask/src/advisory_artifacts.rs:9187-9205 | two cards whose names hold no separator have one budget key exactly when they are of one family and show the same open obligations |
| CommentPlan.AcceptanceIgnoresOrder | xtask/src/advisory_artifacts.rs:6745-7121 | reordering the entries never changes acceptance |
| CommentPlan.BeatenCardMayBePlanned | xtask/src/advisory_artifacts.rs:6838-6860 | for any two competing cards of a group and any body fit for the lower ranked one, the plan that comments on that one and calls the better one covered by it is accepted |
| CommentPlan.AnySelectableMayBePlanned | xtask/src/advisory_artifacts.rs:6745-7121 | in every manifest whose cards have a place and a repair entry, any selectable card for which a fitting body exists is the only comment of some accepted plan |
| CommentPlan.CommentableNeedsRoom | xtask/src/advisory_artifacts.rs:6819-6827 | a fitting body exists only if each passage it has to hold, the next action among them, is within the limit of 220 words |
| CommentPlan.RoomIsEnough | xtask/src/advisory_artifacts.rs:7681-7753 | it does exist if the passages one below the other are within the limit and worded as they should be |
| CommentPlan.PlansAvoidOmittedExactlyWhen | xtask/src/advisory_artifacts.rs:6745-7121 | accepted plans never comment on an omitted card exactly when no omitted card is selectable with a fitting body, or some card lacks its place or repair entry so that no plan is accepted |
| Telemetry.NotSelectedHistograms | xtask/src/advisory_artifacts.rs:1572-1597 | the loop tallies the entries by reason and by reason and class, and fails exactly on an entry with a missing or blank field |
| Telemetry.ReasonsAddUp | xtask/src/advisory_artifacts.rs:1572-1597 | the reason histogram sums to the number of entries |
| Telemetry.ReasonIsMarginal | xtask/src/advisory_artifacts.rs:1572-1597 | the reason histogram is the marginal of the reason and class histogram |
| Telemetry.AcceptedHistograms | xtask/src/advisory_artifacts.rs:1572-1597 | for an accepted plan the histogram sums to not_selected_count and is that marginal |
| Telemetry.HistogramsCountCodes | xtask/src/advisory_artifacts.rs:1572-1597 | for an accepted plan the number under a code's name is that of the left-out cards with the code, and the one under its name and a class that of those of the class |
| TargetFeature.TargetFeatureRepetitionOmittedIds | xtask/src/advisory_artifacts.rs:8981-9014 | grouping, ranking and skipping the first omits exactly the eligible family members that another one of their group beats |
| TargetFeature.OneSurvivor | xtask/src/advisory_artifacts.rs:8981-9014 | in every group with k eligible members exactly k-1 are omitted and the survivor precedes all others by rank, then id |
| PlanReasons.SurvivorOutranks | xtask/src/advisory_artifacts.rs:8926-8963 | who is not omitted outranks every other competitor of the group: high priority, the graver gap in contract, guard and reach, high confidence, then path, line and id |
| TargetFeature.OmittedHasRepresentative | xtask/src/advisory_artifacts.rs:8964-9014 | no ineligible card and no card of another family is omitted, and an omitted card has a better ranked representative that is not |
| TargetFeature.SameGroupSameBudget | xtask/src/advisory_artifacts.rs:8859-8901 | equal group keys imply equal comment budget keys |
| TargetFeature.BeforeIsTotal | xtask/src/advisory_artifacts.rs:8952-8963 | the ranking orders any two cards one way only, unless they share an id |
| TargetFeature.BeforeIsTransitive | xtask/src/advisory_artifacts.rs:8952-8963 | the ranking is transitive |
| Cards.ObligationsAreASet | xtask/src/advisory_artifacts.rs:9187-9205 | a budget key depends on the family and the set of unsatisfied keys, not on order or repetition |
| Shape.NormalizedTargetFeatureShape | xtask/src/advisory_artifacts.rs:8906-8924 | the character loop stars every quoted literal and squeezes white space |
| Shape.ShapeIgnoresLiterals | xtask/src/advisory_artifacts.rs:8903-8924 | what a literal says does not matter, terminated or not |
| Shape.ShapeIgnoresGaps | xtask/src/advisory_artifacts.rs:8906-8924 | how much white space separates tokens outside literals does not matter |
| Shape.ShapeIsIdempotent | xtask/src/advisory_artifacts.rs:8906-8924 | normalising twice is normalising once |
| RepairQueue.CheckRepairQueueArtifact | xtask/src/advisory_artifacts.rs:7238-7350 | a queue is accepted exactly when it is acceptable, and the returned index then agrees with all its entries |
| RepairQueue.AcceptedBuckets | xtask/src/advisory_artifacts.rs:7238-7350 | an accepted queue has the six named buckets and no other, and no card in those for human review and against automatic repair is ready |
| RepairQueue.PushRepairQueueProjection | xtask/src/advisory_artifacts.rs:7497-7537 | a push fails exactly on disagreeing readiness and otherwise adds the bucket once, at the end |
| RepairQueue.CheckReadiness | xtask/src/advisory_artifacts.rs:7551-7603 | readiness is accepted exactly when state, flag, reasons and bucket fit together |
| RepairQueue.IndexIsInverse | xtask/src/advisory_artifacts.rs:7309-7349 | each card's projected bucket list is the in-order list of the buckets that hold it, without repeats, and every entry of the card has the readiness that is projected |
| RepairQueue.ExpectedBucketCounts | xtask/src/advisory_artifacts.rs:4634-4649 | the recount gives, per bucket, the number of places in which the projections name it, for all projections |
| RepairQueue.RecountMatchesSummary | xtask/src/advisory_artifacts.rs:4634-4649 | recounting from the projections gives back every size in the summary |
| RepairQueue.UsefulnessReadinessCounts | xtask/src/advisory_artifacts.rs:1630-1656 | the four counts are the numbers of cards in each readiness state; an unknown state fails |
| RepairQueue.FieldsMean | xtask/src/advisory_artifacts.rs:1630-1656 | each count is that of the cards in one named state, and the four states are the only ones |
| RepairQueue.ReadinessAddsUp | xtask/src/advisory_artifacts.rs:1630-1656 | the readiness counts sum to the number of cards, and the ready class is the set of agent-ready cards |
| SemVerGate.ParseOfPrint | xtask/src/advisory_artifacts.rs:5755-5806 | parsing a printed version gives its core numbers and whether it is a prerelease, unless a number needs more than 64 bits |
| SemVerGate.VersionOfParsed | xtask/src/advisory_artifacts.rs:5755-5806 | everything the parser accepts is the text of a grammatical version |
| SemVerGate.ParserIsExact | xtask/src/advisory_artifacts.rs:5755-5806 | the parser accepts exactly the grammar of sections 2, 9 and 10 of SemVer 2.0.0 with 64-bit core numbers |
| SemVerGate.GateIsPrecedence | xtask/src/advisory_artifacts.rs:5728-5753 | the gate admits exactly the versions whose precedence (section 11) is at least that of 0.3.8 |
| SemVerOrder.IdentifierMeans | xtask/src/advisory_artifacts.rs:5790-5806 | identifiers are written in the alphabet of section 9, and a number among them has no leading zero exactly when it is in its shortest notation |
| SemVerOrder.PrecedesIsTotal | xtask/src/advisory_artifacts.rs:5728-5753 | of two grammatical versions exactly one precedes the other, build metadata aside |
| SemVerOrder.PrecedesIsTransitive | xtask/src/advisory_artifacts.rs:5728-5753 | precedence is transitive |
| SemVerOrder.SpecifiedChain | xtask/src/advisory_artifacts.rs:5728-5753 | the chain of prereleases that section 11 gives as its example is in order |
| WitnessPlan.WitnessPlanCardSections | xtask/src/advisory_artifacts.rs:9665-9682 | the scan ends and returns, one after the other, the text after each next heading up to the next card or boundary heading |
| WitnessPlan.SectionIsDelimited | xtask/src/advisory_artifacts.rs:9665-9682 | each section stands right behind the card's heading and ends at the first line that opens a card or the trust boundary, or at the end of the text |
| WitnessPlan.SectionsAscend | xtask/src/advisory_artifacts.rs:9665-9682 | the sections ascend and are disjoint |
| WitnessPlan.LineStartHeadingsAreFound | xtask/src/advisory_artifacts.rs:9665-9682 | every line-start heading of the card has exactly one section |
| WitnessPlan.OneLineIdsDoNotOverlap | xtask/src/advisory_artifacts.rs:9666-9666 | the condition of that theorem holds for every card id on one line |
| WitnessPlan.OverlapLosesASection | xtask/src/advisory_artifacts.rs:9665-9682 | without the condition there is a text with a line-start heading at which no list of the text's sections starts one |
| WitnessPlan.HeadingsAreFoundExactlyWhen | xtask/src/advisory_artifacts.rs:9665-9682 | the condition holds exactly when every line-start heading of every text has a section |
| Glob.WildcardMatch | xtask/src/docs_automation_paths.rs:39-69 | the greedy match succeeds exactly when the stars can be replaced by strings that turn the pattern into the value |
| Glob.MatchesIffAccepts | xtask/src/docs_automation_paths.rs:39-69 | the recursive reading of a pattern and the replacement of its stars are the same notion |
| Glob.LeftmostSuffices | xtask/src/docs_automation_paths.rs:54-62 | taking the leftmost occurrence of a middle part loses no match |
| Glob.LastIsSuffix | xtask/src/docs_automation_paths.rs:64-68 | the last part only has to be a suffix of what remains |
| CivilDate.DaysToYmd | xtask/src/corpus_backstop.rs:481-511 | the two loops return the one valid date with that day number, and overflow exactly past the last 32-bit year |
| CivilDate.DayNumberOrder | xtask/src/corpus_backstop.rs:481-515 | day numbers order valid dates as the calendar does and name them uniquely, so both round trips hold |
| CivilDate.NowUtcIso8601 | xtask/src/corpus_backstop.rs:462-478 | the text is the timestamp of the instant |
| CivilDate.TimestampOrder | xtask/src/corpus_backstop.rs:462-478 | through year 9999 timestamps sort as strings in time order |
| CivilDate.SortsExactlyBelow | xtask/src/corpus_backstop.rs:462-478 | all timestamps of years below a limit sort as strings in time order exactly when the limit is at most 10000 |
| CivilDate.FiveDigitYearSortsFirst | xtask/src/corpus_backstop.rs:477-477 | a timestamp of the years 10000 to 19999 sorts before every one of the years 2000 to 9999 |
| CountRewrite.RewriteCalibrationReportCounts | xtask/src/calibration_snapshot.rs:40-70 | the loop over the nine prefixes makes the replacements in turn and stops at the first that fails |
| CountRewrite.ReplacedByLine | xtask/src/calibration_snapshot.rs:72-89 | a replacement rewrites the rest of the first line with the prefix and touches no other line |
| CountRewrite.ReportIsRewritten | xtask/src/calibration_snapshot.rs:40-89 | with prefixes on distinct lines every count line gets its count, no other line changes and none moves |
| CountRewrite.ReportReadsBack | xtask/src/calibration_snapshot.rs:40-89 | every count reads back and rewriting again changes nothing |
| CountRewrite.ReportPrefixesArePlain | xtask/src/calibration_snapshot.rs:47-60 | the nine prefixes hold no digit and no line break |
| CountRewrite.ReportPrefixesNoneEnds | xtask/src/calibration_snapshot.rs:47-60 | none of the nine prefixes ends another |
| CountRewrite.CountsInPlaceExactlyWhen | xtask/src/calibration_snapshot.rs:40-89 | for such prefixes the rewrite succeeds with every count on the line that first held its prefix exactly when those lines exist and are distinct |
| CountRewrite.ReportInPlaceExactlyWhen | xtask/src/calibration_snapshot.rs:40-89 | the same for the nine prefixes, any text and any counts |
| CountRewrite.RewriteSucceedsExactlyWhen | xtask/src/calibration_snapshot.rs:40-89 | for any prefixes without digits and line breaks, the rewrite succeeds exactly when each has, in its turn, a first line on which no earlier count cut it off |
| CountRewrite.CountsReadBackExactlyWhen | xtask/src/calibration_snapshot.rs:40-89 | if none ends another, all counts read back exactly when those lines exist and each count either shares its line with no later one or is shown from the start by the untouched line that takes its place |
| CountRewrite.ReportReadsBackExactlyWhen | xtask/src/calibration_snapshot.rs:40-89 | the same for the nine prefixes, any text and any counts |
| CountRewrite.SharedLineLosesACount | xtask/src/calibration_snapshot.rs:72-89 | writing a count cuts off a prefix to its right, and without a later copy of that prefix the rewrite fails |
| CountRewrite.SharedLineDropsACount | xtask/src/calibration_snapshot.rs:72-89 | writing a count left of one that was just written removes it: the rewrite succeeds and the first count cannot be read |
| CountRewrite.SharedLineMovesACount | xtask/src/calibration_snapshot.rs:72-89 | with a later copy of the cut-off prefix both counts read back, the second on the later line |
| CountRewrite.FindAroundGap | xtask/src/calibration_snapshot.rs:78-85 | a needle that shares no character with a replaced stretch is found where it was |
| AuditCounts.RewriteObjectiveAuditCounts | xtask/src/calibration_snapshot.rs:105-129 | the loop over the four phrases makes the replacements in turn and stops at the first that fails |
| AuditCounts.SpotIsTarget | xtask/src/calibration_snapshot.rs:137-162 | where the code finds a phrase's number depends only on the text between the digit runs |
| AuditCounts.ReplacesOneRun | xtask/src/calibration_snapshot.rs:131-166 | a replacement exchanges the one digit run its phrase points at, or fails for the stated reason |
| AuditTexts.NumberIsReplaced | xtask/src/calibration_snapshot.rs:131-166 | a written number is exchanged before the first of its phrases, whatever ASCII white space, line breaks included, stands between them, and nothing else changes |
| AuditCounts.DistinctTargets | xtask/src/calibration_snapshot.rs:114-123 | phrases of which none starts another never point at the same number |
| AuditCounts.AuditIsRewritten | xtask/src/calibration_snapshot.rs:105-166 | the rewrite succeeds exactly when every phrase follows a number in the original text, and then changes those numbers and nothing else |
| AuditCounts.AuditReadsBack | xtask/src/calibration_snapshot.rs:105-166 | every number reads back and rewriting again changes nothing |
| AuditCounts.AuditGroupsAreGood | xtask/src/calibration_snapshot.rs:114-123 | the four phrase groups satisfy the theorems' conditions |
| AuditCounts.WideCharacterBeforeNumber | xtask/src/calibration_snapshot.rs:154-164 | a number right after a character outside ASCII stops the rewrite |
| StepCollector.CheckReviewHeadInput | xtask/src/ci_routing_contract.rs:357-397 | the streaming reader gives the verdict of the batch reading: drop comments and blanks, cut into steps, check each |
| StepCollector.CheckReviewStepHead | xtask/src/ci_routing_contract.rs:399-446 | the flag and counter loop decides exactly whether a step is no review step, a sound one, or a bad one |
| StepCollector.AcceptedExactlyWhen | xtask/src/ci_routing_contract.rs:353-397 | a workflow is accepted exactly when one step is the review step, with one uses, one with, and each identity input once, exact and uncontinued, and no other step uses the action |
| StepTexts.FieldReads | xtask/src/ci_routing_contract.rs:448-463 | every written field, its key plain or in either quotes, with any blanks around the colon and with or without a comment, reads as its key and its value |
| StepTexts.PrintedStepAcceptedExactlyWhen | xtask/src/ci_routing_contract.rs:353-463 | a printed workflow with one step that runs the action, with any inputs in any spelling and order, is accepted exactly when one input is called head and one pr-head-sha and both have their required values |
| StepTexts.SecondInputIsRejected | xtask/src/ci_routing_contract.rs:399-446 | in any workflow, a step that runs the action and gives head or pr-head-sha twice below with, in whatever spellings, is rejected |
| StepCollector.CountsDecide | xtask/src/ci_routing_contract.rs:413-445 | the counts the loop keeps decide that description |
| StepCollector.InStepsMeans | xtask/src/ci_routing_contract.rs:374-379 | being inside steps means: the nearest line of indent 4 or less is steps at indent 4, and the nearest column-0 line above it is jobs |
| StepCollector.StepsAreDisjoint | xtask/src/ci_routing_contract.rs:368-386 | no line belongs to two steps, so no step supplies another's inputs |
| StepCollector.CommentsDoNotMatter | xtask/src/ci_routing_contract.rs:362-366 | a comment or blank line changes nothing, between two lines, as the first line, as an unterminated last line, or as the whole text |
| StepTexts.SilentLinesDoNotMatter | xtask/src/ci_routing_contract.rs:362-366 | the same for every line of white space, and of white space and a number sign |
| LabelLedgers.PolicyClaims | xtask/src/accuracy_labels.rs:227-294 | the nested loops accept exactly the policies with sound rows, distinct claim ids and one owner per ledger, and return the claims |
| LabelLedgers.ValidateLabelLedger | xtask/src/accuracy_labels.rs:296-361 | a ledger is accepted exactly when its header fits the claim and its samples are sound with distinct ids and distinct keys |
| LabelLedgers.SameKeyExactlyWhen | xtask/src/accuracy_labels.rs:444-560 | samples whose texts hold no separator have one key exactly when they make the same claim about their fixture |
| LabelLedgers.LedgerPathMeans | xtask/src/accuracy_labels.rs:823-837 | a ledger path is a .toml file below the label directory without a backslash and without two dots in a row |
| LabelLedgers.ExtendClaimLabelSamples | xtask/src/accuracy_labels.rs:190-206 | a claim's sample keys grow by a ledger's keys exactly when they are disjoint |
| LabelLedgers.CheckClaimLedgers | xtask/src/accuracy_labels.rs:137-159 | in any order of the ledgers, a claim is accepted exactly when its ledgers fit, repeat no sample and cover its fixtures |
| LabelLedgers.CheckAccuracyLabelLedgers | xtask/src/accuracy_labels.rs:112-166 | accepted exactly when acceptable; the returned count is at once the number of distinct sample keys per claim, summed, and the number of samples on disk |
| LabelLedgers.AcceptedLedgersAddUp | xtask/src/accuracy_labels.rs:112-166 | files on disk equal the union of the claims' ledgers, each ledger has exactly one owner, each claim's sampled fixtures equal its declared ones |
| LocalPlan.PlanInner | xtask/src/check_local.rs:298-385 | the plan is a function of the set of changed paths and the degraded flag |
| LocalPlan.SortedCategories | xtask/src/check_local.rs:299-306 | the category list is the sorted list of the distinct categories |
| LocalPlan.SelectedExactlyWhenNeeded | xtask/src/check_local.rs:298-385 | a check is selected exactly when it is always required, the diff is degraded, empty or unsafe, or a changed category triggers it |
| LocalPaths.CategoryMeans | xtask/src/check_local.rs:86-124 | each category on the text of a path, independent of the order in which the code asks |
| LocalPaths.RunsExactlyWhenCalledFor | xtask/src/check_local.rs:86-385 | for every diff and check id: it runs exactly when it always does, when the diff is degraded or empty, or when some path is outside the known directories or in one that the id is for |
| LocalPaths.CodeRunsEverything | xtask/src/check_local.rs:70-75 | a diff that holds product Rust, xtask code or a path outside the known directories runs the whole catalog |
| LocalPaths.SelectionFollowsGit | xtask/src/check_local.rs:298-580 | the same from the listings that git prints, and the whole catalog when the base or a listing is missing |
| LocalPlan.AddingPathsKeepsChecks | xtask/src/check_local.rs:298-385 | growing a non-empty diff never deselects a check |
| LocalPlan.GrowingKeepsExactlyWhen | xtask/src/check_local.rs:298-385 | a diff that grows keeps every selected check exactly when it was not empty, or is degraded, or stays empty, or becomes unsafe, or triggers every check that is not always run |
| LocalPlan.FirstPathDropsChecks | xtask/src/check_local.rs:308-314 | a first documentation path drops the corpus check |
| LocalPlan.UntrustedDiffRunsEverything | xtask/src/check_local.rs:285-314 | a degraded, empty or unsafe diff selects the whole catalog |
| LocalPlan.ReasonsAreTrue | xtask/src/check_local.rs:316-377 | the reason recorded for each check is a true statement about the diff |
| LocalPlan.ResolveDiffWith | xtask/src/check_local.rs:522-571 | the diff is degraded exactly when the base or a listing could not be determined, and its paths are exactly the listed ones, sorted |
| LocalPlan.ListedPathsAreTrimmed | xtask/src/check_local.rs:573-580 | every listed path is non-empty and neither starts nor ends with white space |
| LocalPlan.CollectLines | xtask/src/check_local.rs:573-580 | the path set grows by exactly the trimmed non-blank lines |
| LocalPlan.Run | xtask/src/check_local.rs:463-508 | every needed check is dispatched once in catalog order and reported with its result, and the run succeeds exactly when the receipt was written and says pass |
| LocalPlan.ReceiptReportsOutcomes | xtask/src/check_local.rs:621-663 | the receipt shows each executed check's own outcome and passes exactly when all outcomes do |
| LocalPlan.SelectPartitions | xtask/src/check_local.rs:626-659 | executed and skipped entries partition the catalog, each in catalog order |
| LocalPlan.CatalogIdsAreUnique | xtask/src/check_local.rs:153-266 | catalog ids are distinct, which looking outcomes up by id relies on |
| LocalPlan.UndeterminedSkipsNothing | xtask/src/check_local.rs:510-571 | when the diff could not be determined the receipt lists no skipped check |
| FuzzInput.Clamp | fuzz/fuzz_targets/analyze.rs:184-194 | the loop keeps the longest run of whole characters within the byte limit and gives up at most three bytes |
| FuzzInput.LocateMeans | fuzz/fuzz_targets/analyze.rs:190-192 | a byte position is a character boundary exactly when it is not inside an encoded character (section 3 of RFC 3629) |
| FuzzInput.EncodeReadsBack | fuzz/fuzz_targets/analyze.rs:184-194 | the octets of a character stand for it and are as few as section 3 of RFC 3629 allows |
| FuzzInput.PartsRebuildInput | fuzz/fuzz_targets/analyze.rs:155-166 | the parts and the markers found rebuild the input, and the first parts hold no further marker |
| FuzzInput.WrittenInputIsCut | fuzz/fuzz_targets/analyze.rs:155-166 | three parts written with the Unix or the Windows markers between them are cut again into these parts, if the markers are the first of their kind |
| FuzzInput.ChangedLibDiff | fuzz/fuzz_targets/analyze.rs:223-247 | the diff is the preamble, a hunk header with the number of added lines, those lines, and the tail |
| FuzzInput.DiffLines | fuzz/fuzz_targets/analyze.rs:223-247 | the lines of a generated diff are the three that name the file, the one that announces the added lines, those, and the tail's |
| FuzzInput.HunkHoldsTheAnnouncedLines | fuzz/fuzz_targets/analyze.rs:230-243 | the hunk consists of exactly as many added lines as its header announces, one per source line |
| FuzzInput.HunkReadsBack | fuzz/fuzz_targets/analyze.rs:230-243 | stripping the plus signs gives the source's lines back exactly when there are lines and none keeps a carriage return |
| FuzzInput.ReturnIsLost | fuzz/fuzz_targets/analyze.rs:230-243 | a source of one letter and a carriage return, whose line reads back without the return |

## Left out

- Subprocesses, files, the network, argument parsing, printing and exit codes: their results are inputs.
- SHA-256, JSON and TOML decoding, and the Python regular expression engine: an uninterpreted digest, decoded records, and line predicates for the expressions that matter.
- Accounts and review states of a review: decoded to the cases the code distinguishes; paging and identity checks of the fetched log are not modelled.
- Flat wording and field-by-field checks of artifact entries, ledger headers and samples: each is one boolean of the decoded record (`headerOk`, `fieldsOk`), because they only compare single fields with fixed texts. Of a planned comment's body the word limit, the next action and the other required passages are modelled; the passages' wording and the scan for unknown cards and forbidden claims are functions passed in (`Wording`).
- Error texts, and which of several errors is reported first where an ordered map is walked: errors are named by kind, and loops over maps and sets are verified for every order.
- Edits of a text in place (`replace_range`): modelled as the new text, so buffer reuse is not captured.
- Counters of type `usize`: unbounded, because they count elements that are held in memory; the 32-bit year and the 64-bit version numbers are modelled with their width.
- CommonMark's limit of three blanks before a fence and its rules for info strings of an opening fence: the code has neither, and the model follows the code.
- Trust-boundary and forbidden-term scans, workflow marker lists, and the projection checks for review-kit, tokmd, LSP and SARIF: fixed comparisons that would only add easy members.
- Labels of local checks (`name`, `command`) and the human rendering of the receipt: carried through unchanged by the code.
- The configuration header and the analyzer calls of the fuzz target: the analyzer is not part of this model.
- The analyzer, its renderers and the production selection that the verifiers mirror: not part of this model.
