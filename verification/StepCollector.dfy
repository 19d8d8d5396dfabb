/** The streaming reader of the review workflow's steps: xtask/src/ci_routing_contract.rs. */
module StepCollector {
  import opened Wrappers
  import opened Text
  import opened RustText

  // ---------- mapping fields ----------

  function Unquoted(key: string, quote: string): Option<string> {
    if StartsWith(key, quote) && EndsWith(key[|quote|..], quote) then Some(key[|quote|..|key| - |quote|])
    else None
  }

  /** A key and value, with the key's plain quotes and the value's trailing comment removed. */
  function Field(text: string): Option<(string, string)> {
    match SplitOnce(text, ':')
    case None => None
    case Some((rawKey, rawValue)) =>
      var key := Trim(rawKey);
      var name :=
        if Unquoted(key, "'").Some? then Unquoted(key, "'").value
        else if Unquoted(key, "\"").Some? then Unquoted(key, "\"").value
        else key;
      var comment := Find(rawValue, " #");
      Some((name, Trim(if comment.Some? then rawValue[..comment.value] else rawValue)))
  }

  // ---------- one step ----------

  datatype Entry = Entry(indent: nat, text: string)

  const USES := "uses"
  const WITH := "with"
  const HEAD := "head"
  const HEAD_SHA := "pr-head-sha"
  const ACTION := "EffortlessMetrics/ub-review@"
  const CHECKED_OUT := "HEAD"
  const PULL_REQUEST_HEAD := "${{ github.event.pull_request.head.sha }}"

  function KeyOf(e: Entry): Option<string> {
    match Field(e.text)
    case None => None
    case Some((key, _)) => Some(key)
  }

  function ValueOf(e: Entry): string {
    match Field(e.text)
    case None => ""
    case Some((_, value)) => value
  }

  /** Whether the entry is a field of the step itself. */
  predicate IsStepField(e: Entry, key: string) {
    e.indent == 8 && KeyOf(e) == Some(key)
  }

  /** Whether the latest step field before n is a `with` whose value is a block. */
  predicate UnderWith(step: seq<Entry>, n: nat)
    requires n <= |step|
  {
    n > 0 && (if step[n - 1].indent == 8 then IsStepField(step[n - 1], WITH) && ValueOf(step[n - 1]) == ""
              else UnderWith(step, n - 1))
  }

  predicate IsIdentityInput(step: seq<Entry>, k: nat)
    requires k < |step|
  {
    step[k].indent == 10 && UnderWith(step, k) && (KeyOf(step[k]) == Some(HEAD) || KeyOf(step[k]) == Some(HEAD_SHA))
  }

  predicate IsContinued(step: seq<Entry>, k: nat) {
    k + 1 < |step| && step[k + 1].indent > 10
  }

  /** Whether entry k sets the key to exactly the value, on one line. */
  predicate IsInput(step: seq<Entry>, k: nat, key: string, value: string) {
    k < |step| && KeyOf(step[k]) == Some(key) && ValueOf(step[k]) == value && !IsContinued(step, k)
  }

  predicate RunsReview(e: Entry) {
    IsStepField(e, USES) && StartsWith(ValueOf(e), ACTION)
  }

  /** A step with one `uses`, which names the action, one `with`, and below it the two
    * identity inputs, each once, with its required value and on one line. */
  ghost predicate IsReviewStep(step: seq<Entry>) {
    exists u: nat, w: nat, h: nat, s: nat :: ReviewStepAt(step, u, w, h, s)
  }

  ghost predicate ReviewStepAt(step: seq<Entry>, u: nat, w: nat, h: nat, s: nat) {
    && OnlyAt(FieldFlags(step, USES), {u}) && RunsReview(step[u])
    && OnlyAt(FieldFlags(step, WITH), {w})
    && h != s && OnlyAt(InputFlags(step), {h, s})
    && IsInput(step, h, HEAD, CHECKED_OUT) && IsInput(step, s, HEAD_SHA, PULL_REQUEST_HEAD)
  }

  function FieldFlags(step: seq<Entry>, key: string): (r: seq<bool>)
    ensures |r| == |step|
  {
    seq(|step|, k requires 0 <= k < |step| => IsStepField(step[k], key))
  }

  function InputFlags(step: seq<Entry>): (r: seq<bool>)
    ensures |r| == |step|
  {
    seq(|step|, k requires 0 <= k < |step| => IsIdentityInput(step, k))
  }

  datatype StepVerdict = OtherStep | ReviewStep | BadStep

  ghost function Verdict(step: seq<Entry>): StepVerdict {
    if forall k :: 0 <= k < |step| ==> !RunsReview(step[k]) then OtherStep
    else if IsReviewStep(step) then ReviewStep
    else BadStep
  }

  // ---------- positions ----------

  predicate OnlyAt(flags: seq<bool>, at: set<nat>) {
    (forall k :: k in at ==> k < |flags|) && forall k :: 0 <= k < |flags| ==> (flags[k] <==> k in at)
  }

  function Positions(flags: seq<bool>): (at: seq<nat>)
    ensures forall i :: 0 <= i < |at| ==> at[i] < |flags| && flags[at[i]]
    ensures forall k :: 0 <= k < |flags| && flags[k] ==> k in at
    ensures forall i, j :: 0 <= i < j < |at| ==> at[i] < at[j]
  {
    if flags == [] then []
    else
      var n := |flags| - 1;
      var front := Positions(flags[..n]);
      if flags[n] then front + [n] else front
  }

  lemma OnePosition(flags: seq<bool>, u: nat)
    ensures OnlyAt(flags, {u}) <==> Positions(flags) == [u]
  {
    hide Positions;
    var at := Positions(flags);
    assert |at| >= 2 ==> at[0] < at[1];
    assert at == [u] ==> flags[at[0]] && forall k :: 0 <= k < |flags| ==> (flags[k] <==> k in {u});
    if OnlyAt(flags, {u}) {
      assert u in at;
      assert forall k :: k in at ==> k in {u};
      assert |at| < 2;
    }
  }

  lemma TwoPositions(flags: seq<bool>, h: nat, s: nat)
    requires h < s
    ensures OnlyAt(flags, {h, s}) <==> Positions(flags) == [h, s]
  {
    hide Positions;
    var at := Positions(flags);
    assert |at| >= 3 ==> at[0] < at[1] < at[2];
    assert at == [h, s] ==> flags[at[0]] && flags[at[1]] && forall k :: 0 <= k < |flags| ==> (flags[k] <==> k in {h, s});
    if OnlyAt(flags, {h, s}) {
      assert h in at && s in at;
      assert forall k :: k in at ==> k in {h, s};
      assert |at| < 3;
    }
  }

  lemma PositionsNext(flags: seq<bool>, k: nat)
    requires k < |flags|
    ensures Positions(flags[..k + 1]) == Positions(flags[..k]) + (if flags[k] then [k] else [])
  {
    assert flags[..k + 1][..k] == flags[..k];
  }

  function Pair(e: Entry): (string, string) {
    (if KeyOf(e).Some? then KeyOf(e).value else "", ValueOf(e))
  }

  /** The key and value at each of the positions. */
  function Pairs(step: seq<Entry>, at: seq<nat>): (r: seq<(string, string)>)
    requires forall i :: 0 <= i < |at| ==> at[i] < |step|
    ensures |r| == |at| && forall i :: 0 <= i < |at| ==> r[i] == Pair(step[at[i]])
  {
    seq(|at|, i requires 0 <= i < |at| => Pair(step[at[i]]))
  }

  lemma ThePair<T>(s: seq<T>, a: T, b: T)
    ensures multiset(s) == multiset{a, b} <==> s == [a, b] || s == [b, a]
  {
    if multiset(s) == multiset{a, b} {
      assert |s| == |multiset(s)| == 2;
      assert s == [s[0], s[1]];
      assert s[0] in multiset(s) && s[1] in multiset(s);
      assert multiset{s[0], s[1]} == multiset{a, b};
      assert s[0] == a ==> multiset{s[0], s[1]} - multiset{a} == multiset{s[1]};
      assert s[0] == b ==> multiset{s[0], s[1]} - multiset{b} == multiset{s[1]};
      assert multiset{a, b} - multiset{a} == multiset{b} && multiset{a, b} - multiset{b} == multiset{a};
      assert multiset{s[1]}[s[1]] == 1;
    }
  }

  /** The identity inputs before n, in order. */
  function InputsBefore(step: seq<Entry>, n: nat): seq<(string, string)>
    requires n <= |step|
  {
    Pairs(step, Positions(InputFlags(step)[..n]))
  }

  function WithsBefore(step: seq<Entry>, n: nat): nat
    requires n <= |step|
  {
    |Positions(FieldFlags(step, WITH)[..n])|
  }

  predicate ContinuedBefore(step: seq<Entry>, n: nat)
    requires n <= |step|
  {
    exists k | 0 <= k < n - 1 :: IsIdentityInput(step, k) && step[k + 1].indent > 10
  }

  lemma NextInput(step: seq<Entry>, k: nat)
    requires k < |step|
    ensures InputsBefore(step, k + 1) == InputsBefore(step, k) + (if IsIdentityInput(step, k) then [Pair(step[k])] else [])
  {
    hide IsIdentityInput, Positions, Pair;
    PositionsNext(InputFlags(step), k);
  }

  lemma NextWith(step: seq<Entry>, k: nat)
    requires k < |step|
    ensures WithsBefore(step, k + 1) == WithsBefore(step, k) + (if IsStepField(step[k], WITH) then 1 else 0)
  {
    hide IsStepField, Positions, WITH;
    PositionsNext(FieldFlags(step, WITH), k);
  }

  lemma NextContinued(step: seq<Entry>, k: nat)
    requires k < |step|
    ensures ContinuedBefore(step, k + 1) <==>
      ContinuedBefore(step, k) || (k > 0 && IsIdentityInput(step, k - 1) && step[k].indent > 10)
  {
    hide IsIdentityInput;
  }

  lemma NextUnder(step: seq<Entry>, k: nat)
    requires k < |step|
    ensures UnderWith(step, k + 1) <==>
      if step[k].indent == 8 then IsStepField(step[k], WITH) && ValueOf(step[k]) == "" else UnderWith(step, k)
  {}

  lemma Identity(step: seq<Entry>, k: nat)
    requires k < |step|
    ensures IsIdentityInput(step, k)
       <==> step[k].indent == 10 && UnderWith(step, k) && (KeyOf(step[k]) == Some(HEAD) || KeyOf(step[k]) == Some(HEAD_SHA))
    ensures IsIdentityInput(step, k) ==> KeyOf(step[k]) == Some(Pair(step[k]).0) && ValueOf(step[k]) == Pair(step[k]).1
  {
    hide KeyOf, ValueOf, HEAD, HEAD_SHA, UnderWith;
  }

  lemma NothingBefore(step: seq<Entry>)
    ensures InputsBefore(step, 0) == [] && WithsBefore(step, 0) == 0 && !ContinuedBefore(step, 0) && !UnderWith(step, 0)
  {}

  predicate CountsAgree(step: seq<Entry>) {
    && |Positions(FieldFlags(step, USES))| == 1
    && WithsBefore(step, |step|) == 1
    && multiset(InputsBefore(step, |step|)) == multiset{(HEAD, CHECKED_OUT), (HEAD_SHA, PULL_REQUEST_HEAD)}
    && !ContinuedBefore(step, |step|)
  }

  lemma NoReview(step: seq<Entry>)
    requires var uses := Positions(FieldFlags(step, USES));
      forall i :: 0 <= i < |uses| ==> !StartsWith(ValueOf(step[uses[i]]), ACTION)
    ensures Verdict(step) == OtherStep
  {
    hide Field, KeyOf, ValueOf, IsStepField, StartsWith, Positions, USES, ACTION;
    var flags := FieldFlags(step, USES);
    forall k | 0 <= k < |step|
      ensures !RunsReview(step[k])
    {
      if flags[k] {
        assert k in Positions(flags);
      }
    }
  }

  lemma SomeReview(step: seq<Entry>, i: nat)
    requires var uses := Positions(FieldFlags(step, USES));
      i < |uses| && StartsWith(ValueOf(step[uses[i]]), ACTION)
    ensures exists k :: 0 <= k < |step| && RunsReview(step[k])
  {
    hide Field, KeyOf, ValueOf, IsStepField, StartsWith, Positions, USES, ACTION;
    assert RunsReview(step[Positions(FieldFlags(step, USES))[i]]);
  }

  /** The only `uses` of the step, which is the review's. */
  lemma OneUse(step: seq<Entry>) returns (u: nat)
    requires |Positions(FieldFlags(step, USES))| == 1 && exists k :: 0 <= k < |step| && RunsReview(step[k])
    ensures OnlyAt(FieldFlags(step, USES), {u}) && RunsReview(step[u])
  {
    hide Field, KeyOf, ValueOf, IsStepField, Positions, StartsWith, USES, ACTION;
    var flags := FieldFlags(step, USES);
    u := Positions(flags)[0];
    OnePosition(flags, u);
    var k :| 0 <= k < |step| && RunsReview(step[k]);
    assert flags[k];
  }

  lemma OneWith(step: seq<Entry>) returns (w: nat)
    requires WithsBefore(step, |step|) == 1
    ensures OnlyAt(FieldFlags(step, WITH), {w})
  {
    hide IsStepField, Positions, WITH, OnlyAt;
    var flags := FieldFlags(step, WITH);
    assert flags[..|step|] == flags;
    w := Positions(flags)[0];
    OnePosition(flags, w);
  }

  lemma InputKnown(step: seq<Entry>, k: nat, pair: (string, string))
    requires k < |step| && InputFlags(step)[k] && !ContinuedBefore(step, |step|) && Pair(step[k]) == pair
    ensures IsInput(step, k, pair.0, pair.1)
  {
    hide KeyOf, ValueOf, IsIdentityInput;
    Identity(step, k);
  }

  lemma TwoInputs(step: seq<Entry>, a: (string, string), b: (string, string)) returns (h: nat, s: nat)
    requires multiset(InputsBefore(step, |step|)) == multiset{a, b} && !ContinuedBefore(step, |step|)
    ensures h != s && OnlyAt(InputFlags(step), {h, s}) && IsInput(step, h, a.0, a.1) && IsInput(step, s, b.0, b.1)
  {
    hide KeyOf, ValueOf, IsIdentityInput, Positions, OnlyAt, IsInput, ContinuedBefore, Pair, InputFlags;
    var flags := InputFlags(step);
    assert flags[..|step|] == flags;
    var at := Positions(flags);
    var inputs := InputsBefore(step, |step|);
    ThePair(inputs, a, b);
    TwoPositions(flags, at[0], at[1]);
    InputKnown(step, at[0], inputs[0]);
    InputKnown(step, at[1], inputs[1]);
    if inputs == [a, b] {
      h, s := at[0], at[1];
    } else {
      h, s := at[1], at[0];
      assert {at[0], at[1]} == {h, s};
    }
  }

  lemma InputCounts(step: seq<Entry>, h: nat, s: nat, a: (string, string), b: (string, string))
    requires h != s && OnlyAt(InputFlags(step), {h, s}) && IsInput(step, h, a.0, a.1) && IsInput(step, s, b.0, b.1)
    ensures multiset(InputsBefore(step, |step|)) == multiset{a, b} && !ContinuedBefore(step, |step|)
  {
    hide KeyOf, ValueOf, IsIdentityInput, Positions, InputFlags;
    var flags := InputFlags(step);
    assert flags[..|step|] == flags;
    NoneContinued(step, h, s);
    PairIs(step, h, a);
    PairIs(step, s, b);
    if h < s {
      TwoPositions(flags, h, s);
    } else {
      assert {s, h} == {h, s};
      TwoPositions(flags, s, h);
    }
    ThePair(InputsBefore(step, |step|), a, b);
  }

  lemma PairIs(step: seq<Entry>, k: nat, pair: (string, string))
    requires IsInput(step, k, pair.0, pair.1)
    ensures Pair(step[k]) == pair
  {}

  lemma NoneContinued(step: seq<Entry>, h: nat, s: nat)
    requires OnlyAt(InputFlags(step), {h, s}) && !IsContinued(step, h) && !IsContinued(step, s)
    ensures !ContinuedBefore(step, |step|)
  {
    hide IsIdentityInput;
    forall k | 0 <= k < |step| - 1 && IsIdentityInput(step, k)
      ensures step[k + 1].indent <= 10
    {
      assert InputFlags(step)[k];
    }
  }

  /** The counts the code keeps decide what a review step is. */
  lemma CountsDecide(step: seq<Entry>)
    requires exists k :: 0 <= k < |step| && RunsReview(step[k])
    ensures Verdict(step) == if CountsAgree(step) then ReviewStep else BadStep
  {
    hide IsInput, RunsReview, Positions, USES, WITH, HEAD, HEAD_SHA, CHECKED_OUT, PULL_REQUEST_HEAD, OnlyAt,
      InputsBefore, WithsBefore, ContinuedBefore;
    if CountsAgree(step) {
      var u := OneUse(step);
      var w := OneWith(step);
      var h, s := TwoInputs(step, (HEAD, CHECKED_OUT), (HEAD_SHA, PULL_REQUEST_HEAD));
      assert ReviewStepAt(step, u, w, h, s);
    }
    if IsReviewStep(step) {
      var u: nat, w: nat, h: nat, s: nat :| ReviewStepAt(step, u, w, h, s);
      OnePosition(FieldFlags(step, USES), u);
      InputCounts(step, h, s, (HEAD, CHECKED_OUT), (HEAD_SHA, PULL_REQUEST_HEAD));
      WithCount(step, w);
    }
  }

  lemma WithCount(step: seq<Entry>, w: nat)
    requires OnlyAt(FieldFlags(step, WITH), {w})
    ensures WithsBefore(step, |step|) == 1
  {
    hide IsStepField, Positions, WITH, OnlyAt;
    assert FieldFlags(step, WITH)[..|step|] == FieldFlags(step, WITH);
    OnePosition(FieldFlags(step, WITH), w);
  }

  method CheckReviewStepHead(step: seq<Entry>) returns (r: StepVerdict)
    ensures r == Verdict(step)
  {
    hide *;
    var uses := Positions(FieldFlags(step, USES));
    if forall i :: 0 <= i < |uses| ==> !StartsWith(ValueOf(step[uses[i]]), ACTION) {
      NoReview(step);
      return OtherStep;
    }
    assert exists k :: 0 <= k < |step| && RunsReview(step[k]) by {
      var i :| 0 <= i < |uses| && StartsWith(ValueOf(step[uses[i]]), ACTION);
      SomeReview(step, i);
    }
    NothingBefore(step);
    var inWith, withCount: nat, inputs: seq<(string, string)> := false, 0, [];
    var afterIdentityInput, continuedInput := false, false;
    for k := 0 to |step|
      invariant inWith == UnderWith(step, k)
      invariant withCount == WithsBefore(step, k)
      invariant inputs == InputsBefore(step, k)
      invariant afterIdentityInput <==> k > 0 && IsIdentityInput(step, k - 1)
      invariant continuedInput <==> ContinuedBefore(step, k)
    {
      var e := step[k];
      NextInput(step, k);
      NextWith(step, k);
      NextContinued(step, k);
      NextUnder(step, k);
      Identity(step, k);
      FieldIndent(e);
      continuedInput := continuedInput || (afterIdentityInput && e.indent > 10);
      afterIdentityInput := false;
      if e.indent == 8 {
        inWith := false;
        if IsStepField(e, WITH) {
          withCount := withCount + 1;
          inWith := ValueOf(e) == "";
        }
      } else if inWith && e.indent == 10 && (KeyOf(e) == Some(HEAD) || KeyOf(e) == Some(HEAD_SHA)) {
        inputs := inputs + [(KeyOf(e).value, ValueOf(e))];
        afterIdentityInput := true;
      }
    }
    CountsDecide(step);
    CountsOf(step);
    if |uses| != 1 || withCount != 1 || multiset(inputs) != multiset{(HEAD, CHECKED_OUT), (HEAD_SHA, PULL_REQUEST_HEAD)}
       || continuedInput {
      return BadStep;
    }
    r := ReviewStep;
  }

  lemma FieldIndent(e: Entry)
    ensures IsStepField(e, WITH) ==> e.indent == 8
  {}

  lemma CountsOf(step: seq<Entry>)
    ensures CountsAgree(step) <==>
      && |Positions(FieldFlags(step, USES))| == 1
      && WithsBefore(step, |step|) == 1
      && multiset(InputsBefore(step, |step|)) == multiset{(HEAD, CHECKED_OUT), (HEAD_SHA, PULL_REQUEST_HEAD)}
      && !ContinuedBefore(step, |step|)
  {
    hide Positions, FieldFlags, WithsBefore, InputsBefore, ContinuedBefore, USES, HEAD, HEAD_SHA, CHECKED_OUT, PULL_REQUEST_HEAD;
  }

  // ---------- the lines that count ----------

  function Indent(line: string): (n: nat)
    ensures n <= |line| && (forall i :: 0 <= i < n ==> line[i] == ' ') && (n < |line| ==> line[n] != ' ')
  {
    if line != "" && line[0] == ' ' then 1 + Indent(line[1..]) else 0
  }

  predicate IsCommentOrBlank(line: string) {
    Trim(line) == "" || Trim(line)[0] == '#'
  }

  function Entries(lines: seq<string>): (r: seq<Entry>)
    ensures |r| <= |lines|
  {
    if lines == [] then []
    else EntriesOf(lines[0]) + Entries(lines[1..])
  }

  function EntriesOf(line: string): (r: seq<Entry>)
    ensures |r| <= 1
  {
    if IsCommentOrBlank(line) then [] else [Entry(Indent(line), Trim(line))]
  }

  lemma {:induction false} EntriesConcat(a: seq<string>, b: seq<string>)
    ensures Entries(a + b) == Entries(a) + Entries(b)
  {
    hide EntriesOf;
    if a == [] {
      assert a + b == b;
    } else {
      assert (a + b)[1..] == a[1..] + b;
      EntriesConcat(a[1..], b);
      assert EntriesOf(a[0]) + (Entries(a[1..]) + Entries(b)) == (EntriesOf(a[0]) + Entries(a[1..])) + Entries(b);
    }
  }

  lemma EntriesNext(lines: seq<string>, i: nat)
    requires i < |lines|
    ensures var all, n := Entries(lines), |Entries(lines[..i])|;
      if IsCommentOrBlank(lines[i]) then Entries(lines[..i + 1]) == Entries(lines[..i])
      else n < |all| && all[n] == Entry(Indent(lines[i]), Trim(lines[i])) && |Entries(lines[..i + 1])| == n + 1
  {
    hide IsCommentOrBlank, Indent;
    var here := [lines[i]];
    assert lines[..i + 1] == lines[..i] + here && lines == lines[..i] + here + lines[i + 1..];
    EntriesConcat(lines[..i], here);
    EntriesConcat(lines[..i] + here, lines[i + 1..]);
    assert here[1..] == [];
  }

  // ---------- cutting into steps ----------

  /** Whether the first n entries end inside `jobs:`. */
  predicate InJobs(all: seq<Entry>, n: nat)
    requires n <= |all|
  {
    n > 0 && if all[n - 1].indent == 0 then all[n - 1].text == "jobs:" else InJobs(all, n - 1)
  }

  /** Whether the first n entries end inside a job's `steps:`. */
  predicate InSteps(all: seq<Entry>, n: nat)
    requires n <= |all|
  {
    n > 0 &&
    if all[n - 1].indent <= 4 then
      InJobs(all, n) && all[n - 1].indent == 4 && all[n - 1].text == "steps:"
    else InSteps(all, n - 1)
  }

  predicate IsHeader(all: seq<Entry>, i: nat)
    requires i < |all|
  {
    InSteps(all, i + 1) && all[i].indent == 6 && StartsWith(all[i].text, "- ")
  }

  /** Where the body of the step that i heads ends: at the next entry of indent 6 or less. */
  function BodyEnd(all: seq<Entry>, i: nat): (end: nat)
    requires i < |all|
    ensures i < end <= |all| && (forall j :: i < j < end ==> all[j].indent > 6)
    ensures end < |all| ==> all[end].indent <= 6
    decreases |all| - i
  {
    if i + 1 == |all| || all[i + 1].indent <= 6 then i + 1 else BodyEnd(all, i + 1)
  }

  /** The first n entries' share of the step that i heads; the header's field counts as a
    * field of the step. */
  function StepSoFar(all: seq<Entry>, i: nat, n: nat): seq<Entry>
    requires IsHeaderAt(all, i) && i < n <= |all|
  {
    [Entry(8, all[i].text[2..])] + all[i + 1..n]
  }

  predicate IsHeaderAt(all: seq<Entry>, i: nat) {
    i < |all| && IsHeader(all, i)
  }

  function StepAt(all: seq<Entry>, i: nat): seq<Entry>
    requires IsHeaderAt(all, i)
  {
    StepSoFar(all, i, BodyEnd(all, i))
  }

  /** The steps that the first n entries head. */
  function Steps(all: seq<Entry>, n: nat): seq<seq<Entry>>
    requires n <= |all|
  {
    if n == 0 then []
    else Steps(all, n - 1) + (if IsHeaderAt(all, n - 1) then [StepAt(all, n - 1)] else [])
  }

  datatype Outcome = Accepted | BadReview | WrongCount(found: nat)

  ghost function Reviews(steps: seq<seq<Entry>>): nat {
    if steps == [] then 0
    else Reviews(steps[..|steps| - 1]) + (if Verdict(steps[|steps| - 1]) == ReviewStep then 1 else 0)
  }

  ghost predicate NoneBad(steps: seq<seq<Entry>>) {
    forall k :: 0 <= k < |steps| ==> Verdict(steps[k]) != BadStep
  }

  /** The batch reading: drop comments and blank lines, cut into steps, check each. */
  ghost function Judged(text: string): Outcome {
    var all := Entries(Lines(text));
    var steps := Steps(all, |all|);
    if !NoneBad(steps) then BadReview
    else if Reviews(steps) == 1 then Accepted
    else WrongCount(Reviews(steps))
  }

  /** Whether the step that header heads is still open after n entries. */
  predicate OpenStep(all: seq<Entry>, n: nat, header: nat) {
    header < n <= |all| && IsHeaderAt(all, header) && n <= BodyEnd(all, header)
  }

  lemma OpenGrows(all: seq<Entry>, n: nat, header: nat)
    requires OpenStep(all, n, header) && n < |all| && all[n].indent > 6
    ensures OpenStep(all, n + 1, header) && StepSoFar(all, header, n + 1) == StepSoFar(all, header, n) + [all[n]]
  {
    hide InSteps, BodyEnd, StartsWith;
  }

  lemma OpenCloses(all: seq<Entry>, n: nat, header: nat)
    requires OpenStep(all, n, header) && (n == |all| || all[n].indent <= 6)
    ensures StepSoFar(all, header, n) == StepAt(all, header)
  {
    hide InSteps, BodyEnd, StartsWith;
  }

  lemma HeaderOpens(all: seq<Entry>, n: nat)
    requires IsHeaderAt(all, n)
    ensures OpenStep(all, n + 1, n) && StepSoFar(all, n, n + 1) == [Entry(8, all[n].text[2..])]
    ensures Steps(all, n + 1) == Steps(all, n) + [StepAt(all, n)]
  {
    hide InSteps, BodyEnd, StartsWith, StepAt;
  }

  lemma NotHeader(all: seq<Entry>, n: nat)
    requires n < |all| && !IsHeaderAt(all, n)
    ensures Steps(all, n + 1) == Steps(all, n)
  {
    hide IsHeader;
  }

  lemma NextFlags(all: seq<Entry>, n: nat)
    requires n < |all|
    ensures InJobs(all, n + 1) == if all[n].indent == 0 then all[n].text == "jobs:" else InJobs(all, n)
    ensures InSteps(all, n + 1)
         == if all[n].indent <= 4 then InJobs(all, n + 1) && all[n].indent == 4 && all[n].text == "steps:" else InSteps(all, n)
    ensures IsHeaderAt(all, n) <==> InSteps(all, n + 1) && all[n].indent == 6 && StartsWith(all[n].text, "- ")
    ensures IsHeaderAt(all, n) ==> |all[n].text| >= 2
  {
    hide InJobs, InSteps;
    NextFlagsOnly(all, n);
  }

  lemma NextFlagsOnly(all: seq<Entry>, n: nat)
    requires n < |all|
    ensures InJobs(all, n + 1) == if all[n].indent == 0 then all[n].text == "jobs:" else InJobs(all, n)
    ensures InSteps(all, n + 1)
         == if all[n].indent <= 4 then InJobs(all, n + 1) && all[n].indent == 4 && all[n].text == "steps:" else InSteps(all, n)
  {}

  lemma OneMoreStep(steps: seq<seq<Entry>>, step: seq<Entry>)
    ensures NoneBad(steps + [step]) <==> NoneBad(steps) && Verdict(step) != BadStep
    ensures Reviews(steps + [step]) == Reviews(steps) + (if Verdict(step) == ReviewStep then 1 else 0)
  {
    hide Verdict;
    var all := steps + [step];
    assert all[..|steps|] == steps;
    assert forall k :: 0 <= k < |steps| ==> all[k] == steps[k];
    assert all[|steps|] == step;
  }

  lemma {:induction false} StepsPrefix(all: seq<Entry>, n: nat, m: nat)
    requires n <= m <= |all|
    ensures Steps(all, n) <= Steps(all, m)
    decreases m
  {
    hide IsHeaderAt, StepAt;
    if n < m {
      StepsPrefix(all, n, m - 1);
    }
  }

  lemma BadPrefix(all: seq<Entry>, n: nat)
    requires n <= |all| && !NoneBad(Steps(all, n))
    ensures !NoneBad(Steps(all, |all|))
  {
    hide Verdict, Steps;
    StepsPrefix(all, n, |all|);
    var k :| 0 <= k < |Steps(all, n)| && Verdict(Steps(all, n)[k]) == BadStep;
    assert Steps(all, |all|)[k] == Steps(all, n)[k];
  }

  /** What the reader knows after n entries: the closed steps are checked and counted, and
    * the open step, if there is one, is collected so far. */
  ghost predicate Progress(all: seq<Entry>, n: nat, step: seq<Entry>, header: nat, reviewSteps: nat)
    requires n <= |all|
  {
    if step == [] then NoneBad(Steps(all, n)) && reviewSteps == Reviews(Steps(all, n))
    else
      && OpenStep(all, n, header) && step == StepSoFar(all, header, n)
      && Steps(all, n) == Steps(all, header) + [StepAt(all, header)]
      && NoneBad(Steps(all, header)) && reviewSteps == Reviews(Steps(all, header))
  }

  /** Closing the open step hands exactly the step that the batch reading cuts to the check. */
  lemma ProgressCloses(all: seq<Entry>, n: nat, step: seq<Entry>, header: nat, reviewSteps: nat)
    requires n <= |all| && Progress(all, n, step, header, reviewSteps)
    requires step != [] && (n == |all| || all[n].indent <= 6)
    ensures Verdict(step) == BadStep ==> !NoneBad(Steps(all, |all|))
    ensures Verdict(step) == ReviewStep ==> Progress(all, n, [], header, reviewSteps + 1)
    ensures Verdict(step) == OtherStep ==> Progress(all, n, [], header, reviewSteps)
  {
    hide Steps, StepAt, StepSoFar, NoneBad, Reviews, Verdict, OpenStep;
    OpenFacts(all, n, header);
    OpenCloses(all, n, header);
    OneMoreStep(Steps(all, header), step);
    if Verdict(step) == BadStep {
      BadPrefix(all, n);
    }
  }

  lemma OpenFacts(all: seq<Entry>, n: nat, header: nat)
    requires OpenStep(all, n, header)
    ensures IsHeaderAt(all, header) && header < n <= |all| && n <= BodyEnd(all, header)
  {}

  lemma ProgressOpens(all: seq<Entry>, n: nat, header: nat, reviewSteps: nat)
    requires IsHeaderAt(all, n) && n <= |all| && Progress(all, n, [], header, reviewSteps)
    ensures Progress(all, n + 1, [Entry(8, all[n].text[2..])], n, reviewSteps)
  {
    hide Steps, StepAt, StepSoFar, NoneBad, Reviews, OpenStep, IsHeader;
    HeaderOpens(all, n);
  }

  lemma ProgressGrows(all: seq<Entry>, n: nat, step: seq<Entry>, header: nat, reviewSteps: nat)
    requires n < |all| && all[n].indent > 6 && Progress(all, n, step, header, reviewSteps)
    ensures Progress(all, n + 1, if step == [] then [] else step + [all[n]], header, reviewSteps)
  {
    hide Steps, StepAt, StepSoFar, NoneBad, Reviews, OpenStep, InSteps;
    NotHeader(all, n);
    if step != [] {
      OpenFacts(all, n, header);
      OpenGrows(all, n, header);
    }
  }

  lemma ProgressSkips(all: seq<Entry>, n: nat, header: nat, reviewSteps: nat)
    requires n < |all| && !IsHeaderAt(all, n) && Progress(all, n, [], header, reviewSteps)
    ensures Progress(all, n + 1, [], header, reviewSteps)
  {
    hide Steps, NoneBad, Reviews, IsHeaderAt;
    NotHeader(all, n);
  }

  lemma ProgressStarts(all: seq<Entry>)
    ensures Progress(all, 0, [], 0, 0) && !InJobs(all, 0) && !InSteps(all, 0)
  {}

  lemma ProgressEnds(text: string, header: nat, reviewSteps: nat)
    requires var all := Entries(Lines(text)); Progress(all, |all|, [], header, reviewSteps)
    ensures Judged(text) == if reviewSteps == 1 then Accepted else WrongCount(reviewSteps)
  {
    hide Steps, NoneBad, Reviews, Entries, Lines;
  }

  lemma JudgedBad(text: string)
    requires var all := Entries(Lines(text)); !NoneBad(Steps(all, |all|))
    ensures Judged(text) == BadReview
  {
    hide Steps, NoneBad, Reviews, Entries, Lines;
  }

  lemma TakeAll(lines: seq<string>)
    ensures lines[..|lines|] == lines && lines[..0] == [] && Entries([]) == []
  {}

  method CheckReviewHeadInput(text: string) returns (r: Outcome)
    ensures r == Judged(text)
  {
    hide *;
    var lines := Lines(text);
    ghost var all := Entries(lines);
    var inJobs, inSteps, step: seq<Entry>, reviewSteps: nat := false, false, [], 0;
    ghost var header: nat := 0;
    TakeAll(lines);
    ProgressStarts(all);
    for i := 0 to |lines|
      invariant |Entries(lines[..i])| <= |all|
      invariant inJobs == InJobs(all, |Entries(lines[..i])|) && inSteps == InSteps(all, |Entries(lines[..i])|)
      invariant Progress(all, |Entries(lines[..i])|, step, header, reviewSteps)
    {
      var line := lines[i];
      EntriesNext(lines, i);
      if IsCommentOrBlank(line) {
        continue;
      }
      ghost var n := |Entries(lines[..i])|;
      var indent, trimmed := Indent(line), Trim(line);
      NextFlags(all, n);
      if indent <= 6 && step != [] {
        ProgressCloses(all, n, step, header, reviewSteps);
        var verdict := CheckReviewStepHead(step);
        if verdict == BadStep {
          JudgedBad(text);
          return BadReview;
        }
        if verdict == ReviewStep {
          reviewSteps := reviewSteps + 1;
        }
        step := [];
      }
      if indent == 0 {
        inJobs := trimmed == "jobs:";
      }
      if indent <= 4 {
        inSteps := inJobs && indent == 4 && trimmed == "steps:";
      }
      if inSteps && indent == 6 {
        if StartsWith(trimmed, "- ") {
          ProgressOpens(all, n, header, reviewSteps);
          step := [Entry(8, trimmed[2..])];
          header := n;
        } else {
          ProgressSkips(all, n, header, reviewSteps);
        }
      } else if step != [] {
        ProgressGrows(all, n, step, header, reviewSteps);
        step := step + [Entry(indent, trimmed)];
      } else {
        ProgressSkips(all, n, header, reviewSteps);
      }
    }
    if step != [] {
      ProgressCloses(all, |all|, step, header, reviewSteps);
      var verdict := CheckReviewStepHead(step);
      if verdict == BadStep {
        JudgedBad(text);
        return BadReview;
      }
      if verdict == ReviewStep {
        reviewSteps := reviewSteps + 1;
      }
    }
    ProgressEnds(text, header, reviewSteps);
    r := if reviewSteps == 1 then Accepted else WrongCount(reviewSteps);
  }

  // ---------- what the reading means ----------

  /** Being inside `steps:` in terms of the layout alone: the nearest entry of indent 4 or
    * less is `steps:` at indent 4, and the nearest entry at column 0 above it is `jobs:`. */
  lemma {:induction false} InStepsMeans(all: seq<Entry>, n: nat)
    requires n <= |all|
    ensures InSteps(all, n) <==> exists s, j :: IsStepsLine(all, n, s) && IsJobsLine(all, s, j)
  {
    hide InJobs;
    if n > 0 && all[n - 1].indent > 4 {
      InStepsMeans(all, n - 1);
      if InSteps(all, n) {
        var s, j :| IsStepsLine(all, n - 1, s) && IsJobsLine(all, s, j);
        assert IsStepsLine(all, n, s) && IsJobsLine(all, s, j);
      }
      if s, j :| IsStepsLine(all, n, s) && IsJobsLine(all, s, j) {
        assert IsStepsLine(all, n - 1, s) && IsJobsLine(all, s, j);
      }
    } else if n > 0 {
      InJobsMeans(all, n);
      if InSteps(all, n) {
        var j :| IsJobsLine(all, n, j);
        assert IsStepsLine(all, n, n - 1) && IsJobsLine(all, n - 1, j);
      }
      if s, j :| IsStepsLine(all, n, s) && IsJobsLine(all, s, j) {
        assert s == n - 1;
        assert IsJobsLine(all, n, j);
      }
    }
  }

  predicate IsStepsLine(all: seq<Entry>, n: nat, s: int)
    requires n <= |all|
  {
    0 <= s < n && all[s].indent == 4 && all[s].text == "steps:" && forall k :: s < k < n ==> all[k].indent > 4
  }

  predicate IsJobsLine(all: seq<Entry>, n: int, j: int) {
    0 <= j < n <= |all| && all[j].indent == 0 && all[j].text == "jobs:" && forall k :: j < k < n ==> all[k].indent > 0
  }

  lemma {:induction false} InJobsMeans(all: seq<Entry>, n: nat)
    requires n <= |all|
    ensures InJobs(all, n) <==> exists j :: IsJobsLine(all, n, j)
  {
    if n > 0 && all[n - 1].indent > 0 {
      InJobsMeans(all, n - 1);
      if InJobs(all, n) {
        var j :| IsJobsLine(all, n - 1, j);
        assert IsJobsLine(all, n, j);
      }
      if j :| IsJobsLine(all, n, j) {
        assert IsJobsLine(all, n - 1, j);
      }
    } else if n > 0 {
      if InJobs(all, n) {
        assert IsJobsLine(all, n, n - 1);
      }
    }
  }

  /** No entry belongs to two steps, so no step supplies another's inputs. */
  lemma StepsAreDisjoint(all: seq<Entry>, i: nat, j: nat)
    requires i < j && IsHeaderAt(all, i) && IsHeaderAt(all, j)
    ensures BodyEnd(all, i) <= j
  {
    hide InSteps, BodyEnd, StartsWith;
  }

  /** The verdict on the step that entry i heads, if it heads one. */
  ghost function VerdictAt(all: seq<Entry>, i: nat): Option<StepVerdict> {
    if IsHeaderAt(all, i) then Some(Verdict(StepAt(all, i))) else None
  }

  predicate NotReviewing(v: Option<StepVerdict>) {
    v != Some(ReviewStep) && v != Some(BadStep)
  }

  /** Entry i heads the review step and no other of the first n entries heads a step that
    * uses the action. */
  ghost predicate OnlyReview(all: seq<Entry>, n: nat, i: nat) {
    && i < n && VerdictAt(all, i) == Some(ReviewStep)
    && forall j: nat :: j < n && j != i ==> NotReviewing(VerdictAt(all, j))
  }

  ghost predicate AllOther(all: seq<Entry>, n: nat) {
    forall j: nat :: j < n ==> NotReviewing(VerdictAt(all, j))
  }

  ghost predicate HasOnlyReview(all: seq<Entry>, n: nat) {
    exists i: nat :: OnlyReview(all, n, i)
  }

  lemma StepCounted(all: seq<Entry>, n: nat)
    requires n < |all|
    ensures var before, after, v := Steps(all, n), Steps(all, n + 1), VerdictAt(all, n);
      && (NoneBad(after) <==> NoneBad(before) && v != Some(BadStep))
      && Reviews(after) == Reviews(before) + (if v == Some(ReviewStep) then 1 else 0)
  {
    hide IsHeaderAt, StepAt, Verdict, NoneBad, Reviews, Steps;
    if IsHeaderAt(all, n) {
      HeaderOpens(all, n);
      OneMoreStep(Steps(all, n), StepAt(all, n));
    } else {
      NotHeader(all, n);
    }
  }

  lemma CountedNothing(all: seq<Entry>)
    ensures Steps(all, 0) == [] && NoneBad([]) && Reviews([]) == 0 && AllOther(all, 0) && !HasOnlyReview(all, 0)
  {}

  lemma NextOther(all: seq<Entry>, n: nat)
    requires 0 < n <= |all|
    ensures AllOther(all, n) <==> AllOther(all, n - 1) && NotReviewing(VerdictAt(all, n - 1))
  {
    hide VerdictAt;
    assert AllOther(all, n) ==> NotReviewing(VerdictAt(all, n - 1));
  }

  lemma {:induction false} CountedNone(all: seq<Entry>, n: nat)
    requires n <= |all|
    ensures NoneBad(Steps(all, n)) && Reviews(Steps(all, n)) == 0 <==> AllOther(all, n)
  {
    hide Steps, NoneBad, Reviews, VerdictAt, AllOther, HasOnlyReview;
    if n == 0 {
      CountedNothing(all);
    } else {
      CountedNone(all, n - 1);
      StepCounted(all, n - 1);
      NextOther(all, n);
    }
  }

  lemma {:induction false} CountedOne(all: seq<Entry>, n: nat)
    requires n <= |all|
    ensures NoneBad(Steps(all, n)) && Reviews(Steps(all, n)) == 1 <==> HasOnlyReview(all, n)
  {
    hide Steps, NoneBad, Reviews, VerdictAt, AllOther, HasOnlyReview;
    if n == 0 {
      CountedNothing(all);
    } else {
      CountedOne(all, n - 1);
      CountedNone(all, n - 1);
      StepCounted(all, n - 1);
      NextReview(all, n);
    }
  }

  lemma NextReview(all: seq<Entry>, n: nat)
    requires 0 < n <= |all|
    ensures var v := VerdictAt(all, n - 1);
      HasOnlyReview(all, n) <==>
        (HasOnlyReview(all, n - 1) && NotReviewing(v)) || (AllOther(all, n - 1) && v == Some(ReviewStep))
  {
    hide VerdictAt;
    if HasOnlyReview(all, n) {
      var i: nat :| OnlyReview(all, n, i);
      assert i < n - 1 ==> OnlyReview(all, n - 1, i);
    }
    if HasOnlyReview(all, n - 1) && NotReviewing(VerdictAt(all, n - 1)) {
      var i: nat :| OnlyReview(all, n - 1, i);
      assert OnlyReview(all, n, i);
    }
    if AllOther(all, n - 1) && VerdictAt(all, n - 1) == Some(ReviewStep) {
      assert OnlyReview(all, n, n - 1);
    }
  }

  /** The workflow is accepted exactly when one step below `jobs`/`steps` is the review step,
    * as IsReviewStep describes it, and no other step uses the action at all. */
  lemma AcceptedExactlyWhen(text: string)
    ensures var all := Entries(Lines(text)); Judged(text) == Accepted <==> HasOnlyReview(all, |all|)
  {
    hide HasOnlyReview, Steps, NoneBad, Reviews, Entries, Lines;
    CountedOne(Entries(Lines(text)), |Entries(Lines(text))|);
  }

  // ---------- comments and blank lines ----------

  lemma NoEntry(line: string)
    requires IsCommentOrBlank(line)
    ensures Entries([line]) == [] && Entries([WithoutReturn(line)]) == []
  {
    hide Trim, WithoutReturn;
    ReturnIsTrimmed(line);
    assert [line][1..] == [] && [WithoutReturn(line)][1..] == [];
  }

  /** The lines of pieces with a comment or blank last piece show no entry for it. */
  lemma NoLastEntry(front: seq<string>, line: string)
    requires front != [] && IsCommentOrBlank(line)
    ensures Entries(LinesOfPieces(front + [line])) == Entries(WithoutReturns(front))
    ensures Entries(LinesOfPieces([line])) == []
  {
    hide IsCommentOrBlank, WithoutReturn, WithoutReturns, Entries;
    PiecesConcat(front, [line]);
    NoEntry(line);
    EntriesConcat(WithoutReturns(front), LinesOfPieces([line]));
    assert Entries([]) == [] by {
      NoLinesNoEntries();
    }
  }

  lemma NoLinesNoEntries()
    ensures Entries([]) == []
  {}

  lemma BlankIsBlank()
    ensures IsCommentOrBlank("")
  {}

  /** A comment or blank line anywhere in the workflow changes nothing: between two lines, as
    * the first line, as a last line that no line feed ends, or as the whole text. */
  lemma CommentsDoNotMatter(a: string, line: string, b: string)
    requires '\n' !in line && IsCommentOrBlank(line)
    ensures Judged(a + "\n" + line + "\n" + b) == Judged(a + "\n" + b)
    ensures Judged(line + "\n" + b) == Judged(b)
    ensures Judged(a + "\n" + line) == Judged(a + "\n")
    ensures Judged(line) == Judged("")
  {
    hide IsCommentOrBlank, WithoutReturn, Split, LinesOfPieces, Judged, WithoutReturns, Entries, Join;
    CommentBetween(a, line, b);
    CommentFirst(line, b);
    CommentLast(a, line);
  }

  lemma CommentBetween(a: string, line: string, b: string)
    requires '\n' !in line && IsCommentOrBlank(line)
    ensures Judged(a + "\n" + line + "\n" + b) == Judged(a + "\n" + b)
  {
    hide IsCommentOrBlank, WithoutReturn, Split, LinesOfPieces, Judged, WithoutReturns, Entries, Join;
    var front, middle, back := Split(a, '\n'), [line], Split(b, '\n');
    SplitAtBreak(a, b);
    SplitAtBreak(a + "\n" + line, b);
    SplitAtBreak(a, line);
    OnePiece(line);
    PiecesConcat(front, back);
    PiecesConcat(front + middle, back);
    var kept := WithoutReturns(front);
    ReturnsOfBoth(front, line);
    NoEntry(line);
    EntriesConcat(kept, [WithoutReturn(line)]);
    EntriesConcat(kept + [WithoutReturn(line)], LinesOfPieces(back));
    EntriesConcat(kept, LinesOfPieces(back));
    SameEntries(a + "\n" + line + "\n" + b, a + "\n" + b);
  }

  lemma CommentFirst(line: string, b: string)
    requires '\n' !in line && IsCommentOrBlank(line)
    ensures Judged(line + "\n" + b) == Judged(b)
  {
    hide IsCommentOrBlank, WithoutReturn, Split, LinesOfPieces, Judged, WithoutReturns, Entries, Join;
    var back := Split(b, '\n');
    SplitAtBreak(line, b);
    OnePiece(line);
    PiecesConcat([line], back);
    ReturnsOfBoth([], line);
    assert [] + [line] == [line] && WithoutReturns([]) == [] by {
      NoReturns();
    }
    assert WithoutReturns([line]) == [WithoutReturn(line)];
    NoEntry(line);
    EntriesConcat([WithoutReturn(line)], LinesOfPieces(back));
    SameEntries(line + "\n" + b, b);
  }

  lemma NoReturns()
    ensures WithoutReturns([]) == []
  {}

  lemma CommentLast(a: string, line: string)
    requires '\n' !in line && IsCommentOrBlank(line)
    ensures Judged(a + "\n" + line) == Judged(a + "\n") && Judged(line) == Judged("")
  {
    hide IsCommentOrBlank, WithoutReturn, Split, LinesOfPieces, Judged, WithoutReturns, Entries, Join;
    var front := Split(a, '\n');
    SplitAtBreak(a, line);
    SplitAtBreak(a, "");
    OnePiece(line);
    OnePiece("");
    BlankIsBlank();
    NoLastEntry(front, line);
    NoLastEntry(front, "");
    assert a + "\n" + "" == a + "\n";
    SameEntries(a + "\n" + line, a + "\n");
    SameEntries(line, "");
  }

  lemma ReturnsOfBoth(pieces: seq<string>, line: string)
    ensures WithoutReturns(pieces + [line]) == WithoutReturns(pieces) + [WithoutReturn(line)]
  {
    hide WithoutReturn;
  }

  lemma SameEntries(a: string, b: string)
    requires Entries(Lines(a)) == Entries(Lines(b))
    ensures Judged(a) == Judged(b)
  {}
}
