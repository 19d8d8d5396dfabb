/** Rewriting counts in place: xtask/src/calibration_snapshot.rs. */
module CountRewrite {
  import opened Wrappers
  import opened Text

  // ---------- searching around a gap ----------

  predicate Avoids(needle: string, gap: string) {
    forall i, j :: 0 <= i < |needle| && 0 <= j < |gap| ==> needle[i] != gap[j]
  }

  lemma OccursAroundGap(a: string, gap: string, b: string, needle: string, i: nat)
    requires needle != "" && gap != "" && Avoids(needle, gap)
    ensures OccursAt(a + gap + b, needle, i)
       <==> OccursAt(a, needle, i) || (i >= |a| + |gap| && OccursAt(b, needle, i - |a| - |gap|))
  {
    var text := a + gap + b;
    if i + |needle| <= |a| {
      assert text[i..i + |needle|] == a[i..i + |needle|];
    } else if i >= |a| + |gap| {
      if i + |needle| <= |text| {
        var k := i - |a| - |gap|;
        assert text[i..i + |needle|] == b[k..k + |needle|];
      }
    } else if i + |needle| <= |text| {
      var at := if i < |a| then |a| else i;
      assert text[at] == gap[at - |a|];
      assert text[i..i + |needle|][at - i] == text[at];
    }
  }

  /** A needle that shares no character with a gap is found on one side of it. */
  lemma FindAroundGap(a: string, gap: string, b: string, needle: string)
    requires needle != "" && gap != "" && Avoids(needle, gap)
    ensures Find(a + gap + b, needle)
         == if Find(a, needle).Some? then Find(a, needle)
            else if Find(b, needle).Some? then Some(|a| + |gap| + Find(b, needle).value)
            else None
  {
    hide OccursAt, Avoids;
    var text := a + gap + b;
    forall i: nat
      ensures OccursAt(text, needle, i)
         <==> OccursAt(a, needle, i) || (i >= |a| + |gap| && OccursAt(b, needle, i - |a| - |gap|))
    {
      OccursAroundGap(a, gap, b, needle, i);
    }
    if Find(a, needle).Some? {
      var i := Find(a, needle).value;
      OccursInside(a, needle, i);
      FindIs(text, needle, i);
    } else if Find(b, needle).Some? {
      FindIs(text, needle, |a| + |gap| + Find(b, needle).value);
    }
  }

  lemma OccursInside(text: string, needle: string, i: nat)
    requires OccursAt(text, needle, i)
    ensures i + |needle| <= |text|
  {}

  // ---------- count lines ----------

  datatype RewriteError = MissingPrefix(prefix: string)

  function ReplacePrefixedCountLine(text: string, prefix: string, newValue: string): Result<string, RewriteError> {
    match Find(text, prefix)
    case None => Err(MissingPrefix(prefix))
    case Some(start) =>
      var after := start + |prefix|;
      var newline := Find(text[after..], "\n");
      var end := if newline.Some? then after + newline.value else |text|;
      Ok(text[..after] + newValue + text[end..])
  }

  /** The first of the lines that holds the prefix. */
  function FirstLine(lines: seq<string>, prefix: string): (r: Option<nat>)
    ensures r.Some? ==> r.value < |lines| && Find(lines[r.value], prefix).Some?
    ensures r.Some? ==> forall i :: 0 <= i < r.value ==> Find(lines[i], prefix).None?
    ensures r.None? ==> forall i :: 0 <= i < |lines| ==> Find(lines[i], prefix).None?
  {
    if lines == [] then None
    else if Find(lines[0], prefix).Some? then Some(0)
    else
      match FirstLine(lines[1..], prefix)
      case None => None
      case Some(i) => Some(i + 1)
  }

  lemma FirstLineIs(lines: seq<string>, prefix: string, i: nat)
    requires i < |lines| && Find(lines[i], prefix).Some?
    requires forall j :: 0 <= j < i ==> Find(lines[j], prefix).None?
    ensures FirstLine(lines, prefix) == Some(i)
  {}

  /** The line with everything after its first prefix replaced. */
  function CountLine(line: string, prefix: string, newValue: string): string
    requires Find(line, prefix).Some?
  {
    line[..Find(line, prefix).value + |prefix|] + newValue
  }

  function RewriteLine(lines: seq<string>, prefix: string, newValue: string): (r: seq<string>)
    requires FirstLine(lines, prefix).Some?
    ensures |r| == |lines|
  {
    var i := FirstLine(lines, prefix).value;
    lines[i := CountLine(lines[i], prefix, newValue)]
  }

  predicate AreLines(lines: seq<string>) {
    lines != [] && forall i :: 0 <= i < |lines| ==> '\n' !in lines[i]
  }

  lemma BreakAt(text: string, i: int)
    ensures OccursAt(text, "\n", i) <==> 0 <= i < |text| && text[i] == '\n'
  {
    if 0 <= i < |text| {
      assert text[i..i + 1] == [text[i]];
    }
  }

  lemma FirstBreak(line: string, rest: string, from: nat)
    requires '\n' !in line && from <= |line|
    ensures Find((line + "\n" + rest)[from..], "\n") == Some(|line| - from)
  {
    hide OccursAt;
    var text := line + "\n" + rest;
    var tail := text[from..];
    forall j: nat | j <= |line| - from
      ensures OccursAt(tail, "\n", j) <==> j == |line| - from
    {
      BreakAt(tail, j);
      assert tail[j] == text[from + j];
    }
    FindIs(tail, "\n", |line| - from);
  }

  lemma NoBreak(line: string)
    requires '\n' !in line
    ensures Find(line, "\n").None?
  {
    forall i
      ensures !OccursAt(line, "\n", i)
    {
      BreakAt(line, i);
    }
  }

  lemma FirstLineSplit(line: string, rest: seq<string>, prefix: string)
    ensures FirstLine([line] + rest, prefix)
         == if Find(line, prefix).Some? then Some(0)
            else if FirstLine(rest, prefix).Some? then Some(FirstLine(rest, prefix).value + 1) else None
  {
    hide Find;
    assert ([line] + rest)[1..] == rest;
  }

  /** On the lines of the text, the replacement rewrites the first line with the prefix
    * and touches no other. */
  lemma {:induction false} ReplacedByLine(lines: seq<string>, prefix: string, newValue: string)
    requires AreLines(lines) && prefix != "" && '\n' !in prefix
    ensures ReplacePrefixedCountLine(Join(lines, "\n"), prefix, newValue)
         == if FirstLine(lines, prefix).Some? then Ok(Join(RewriteLine(lines, prefix, newValue), "\n"))
            else Err(MissingPrefix(prefix))
    decreases |lines|
  {
    hide FirstLine, Find;
    var line := lines[0];
    if |lines| == 1 {
      assert lines == [line] + [];
      FirstLineSplit(line, [], prefix);
      LastLineReplaced(line, prefix, newValue);
      NoLines(prefix);
    } else {
      var rest := lines[1..];
      assert lines == [line] + rest;
      FirstLineSplit(line, rest, prefix);
      FindAroundGap(line, "\n", Join(rest, "\n"), prefix);
      assert Join(lines, "\n") == line + "\n" + Join(rest, "\n");
      if Find(line, prefix).Some? {
        EarlyLineReplaced(line, Join(rest, "\n"), prefix, newValue);
        assert RewriteLine(lines, prefix, newValue) == [CountLine(line, prefix, newValue)] + rest;
        assert ([CountLine(line, prefix, newValue)] + rest)[1..] == rest;
      } else {
        ReplacedByLine(rest, prefix, newValue);
        LaterLineReplaced(line, Join(rest, "\n"), prefix, newValue);
        if FirstLine(rest, prefix).Some? {
          var rest' := RewriteLine(rest, prefix, newValue);
          assert RewriteLine(lines, prefix, newValue) == [line] + rest';
          assert ([line] + rest')[1..] == rest';
        }
      }
    }
  }

  lemma NoLines(prefix: string)
    ensures FirstLine([], prefix) == None
  {}

  lemma LastLineReplaced(line: string, prefix: string, newValue: string)
    requires '\n' !in line
    ensures Find(line, prefix).Some? ==>
      ReplacePrefixedCountLine(line, prefix, newValue) == Ok(CountLine(line, prefix, newValue))
  {
    var r := Find(line, prefix);
    if r.Some? {
      var after := r.value + |prefix|;
      assert '\n' !in line[after..];
      NoBreak(line[after..]);
      assert line[..after] + newValue + line[|line|..] == line[..after] + newValue;
    }
  }

  lemma EarlyLineReplaced(line: string, rest: string, prefix: string, newValue: string)
    requires '\n' !in line && '\n' !in prefix && prefix != "" && Find(line, prefix).Some?
    ensures ReplacePrefixedCountLine(line + "\n" + rest, prefix, newValue)
         == Ok(CountLine(line, prefix, newValue) + "\n" + rest)
  {
    var text := line + "\n" + rest;
    FindAroundGap(line, "\n", rest, prefix);
    var after := Find(line, prefix).value + |prefix|;
    FirstBreak(line, rest, after);
    assert text[..after] == line[..after];
    assert text[|line|..] == "\n" + rest;
    assert text[..after] + newValue + text[|line|..] == line[..after] + newValue + "\n" + rest;
  }

  lemma SpliceShift(front: string, rest: string, i: nat, j: nat, new_: string)
    requires i <= j <= |rest|
    ensures (front + rest)[..|front| + i] + new_ + (front + rest)[|front| + j..] == front + (rest[..i] + new_ + rest[j..])
  {
    assert (front + rest)[..|front| + i] == front + rest[..i];
    assert (front + rest)[|front| + j..] == rest[j..];
  }

  lemma LaterLineReplaced(line: string, rest: string, prefix: string, newValue: string)
    requires '\n' !in prefix && prefix != "" && Find(line, prefix).None?
    ensures ReplacePrefixedCountLine(line + "\n" + rest, prefix, newValue)
         == match ReplacePrefixedCountLine(rest, prefix, newValue)
            case Err(e) => Err(e)
            case Ok(r) => Ok(line + "\n" + r)
  {
    hide Find, OccursAt, Avoids;
    var text := line + "\n" + rest;
    assert Avoids(prefix, "\n") by {
      BreakAvoided(prefix);
    }
    FindAroundGap(line, "\n", rest, prefix);
    var start := Find(rest, prefix);
    if start.Some? {
      OccursInside(rest, prefix, start.value);
      var n := |line| + 1;
      var after := start.value + |prefix|;
      assert text[n + after..] == rest[after..];
      var newline := Find(rest[after..], "\n");
      if newline.Some? {
        OccursInside(rest[after..], "\n", newline.value);
      }
      var end := if newline.Some? then after + newline.value else |rest|;
      SpliceShift(line + "\n", rest, after, end, newValue);
    }
  }

  lemma BreakAvoided(prefix: string)
    requires '\n' !in prefix
    ensures Avoids(prefix, "\n")
  {}

  // ---------- a whole block of counts ----------

  datatype Field = Field(prefix: string, value: nat)

  predicate Plain(prefix: string) {
    prefix != "" && forall i :: 0 <= i < |prefix| ==> prefix[i] != '\n' && !IsDigit(prefix[i])
  }

  predicate ArePlain(fields: seq<Field>) {
    forall k :: 0 <= k < |fields| ==> Plain(fields[k].prefix)
  }

  /** The replacements made one after the other, stopping at the first that fails. */
  function RewriteAll(text: string, fields: seq<Field>): Result<string, RewriteError> {
    if fields == [] then Ok(text)
    else
      match RewriteAll(text, fields[..|fields| - 1])
      case Err(e) => Err(e)
      case Ok(before) =>
        var f := fields[|fields| - 1];
        ReplacePrefixedCountLine(before, f.prefix, Decimal(f.value))
  }

  /** The counts of a calibration report. */
  datatype Stats = Stats(
    claims: nat, fixturePinned: nat, dogfoodMeasured: nat, labeledCalibrated: nat, policyEligible: nat,
    calibrationCases: nat, labelLedgers: nat, labelSamples: nat, labeledReports: nat)

  function ReportFields(s: Stats): seq<Field> {
    [Field("- Claims: ", s.claims), Field("- Fixture-pinned claims: ", s.fixturePinned),
     Field("- Dogfood-measured claims: ", s.dogfoodMeasured), Field("- Labeled-calibrated claims: ", s.labeledCalibrated),
     Field("- Policy-eligible claims: ", s.policyEligible), Field("- Calibration cases: ", s.calibrationCases),
     Field("- Label ledgers: ", s.labelLedgers), Field("- Label samples: ", s.labelSamples),
     Field("- Labeled reports: ", s.labeledReports)]
  }

  method RewriteCalibrationReportCounts(text: string, stats: Stats) returns (r: Result<string, RewriteError>)
    ensures r == RewriteAll(text, ReportFields(stats))
  {
    hide ReportFields, ReplacePrefixedCountLine, Decimal;
    var fields := ReportFields(stats);
    var result := text;
    for k := 0 to |fields|
      invariant RewriteAll(text, fields[..k]) == Ok(result)
    {
      var f := fields[k];
      assert fields[..k + 1][..k] == fields[..k];
      var replaced := ReplacePrefixedCountLine(result, f.prefix, Decimal(f.value));
      if replaced.Err? {
        FailsLater(text, fields, k + 1);
        return replaced;
      }
      result := replaced.value;
    }
    assert fields[..|fields|] == fields;
    r := Ok(result);
  }

  lemma {:induction false} FailsLater(text: string, fields: seq<Field>, k: nat)
    requires k <= |fields| && RewriteAll(text, fields[..k]).Err?
    ensures RewriteAll(text, fields) == RewriteAll(text, fields[..k])
    decreases |fields| - k
  {
    if k < |fields| {
      assert fields[..k + 1][..k] == fields[..k];
      FailsLater(text, fields, k + 1);
    } else {
      assert fields[..k] == fields;
    }
  }

  /** The fields' prefixes all occur, and first occur on different lines. */
  ghost predicate OnDistinctLines(lines: seq<string>, fields: seq<Field>) {
    (forall k :: 0 <= k < |fields| ==> FirstLine(lines, fields[k].prefix).Some?) &&
    forall k, k' :: 0 <= k < k' < |fields| ==>
      FirstLine(lines, fields[k].prefix) != FirstLine(lines, fields[k'].prefix)
  }

  /** The first n fields' lines hold the new counts, every other line is as it was, and
    * every prefix is still first found on its old line. */
  ghost predicate Updated(lines: seq<string>, lines': seq<string>, fields: seq<Field>, n: nat)
    requires n <= |fields| && OnDistinctLines(lines, fields)
  {
    && |lines'| == |lines|
    && (forall k :: 0 <= k < |fields| ==> FirstLine(lines', fields[k].prefix) == FirstLine(lines, fields[k].prefix))
    && (forall k :: 0 <= k < n ==>
          var i := FirstLine(lines, fields[k].prefix).value;
          lines'[i] == CountLine(lines[i], fields[k].prefix, Decimal(fields[k].value)))
    && (forall i :: 0 <= i < |lines| && (forall k :: 0 <= k < n ==> FirstLine(lines, fields[k].prefix).value != i) ==>
          lines'[i] == lines[i])
  }

  lemma DigitsAvoided(prefix: string, digits: string)
    requires Plain(prefix) && AllDigits(digits)
    ensures Avoids(prefix, digits)
  {}

  /** What a count line holds of a plain string, before and after its count changes. */
  lemma CountLineKeeps(line: string, prefix: string, digits: string, other: string)
    requires Plain(prefix) && Plain(other) && AllDigits(digits) && digits != "" && Find(line, prefix).Some?
    ensures Find(line, other).None? ==> Find(CountLine(line, prefix, digits), other).None?
    ensures Find(CountLine(line, prefix, digits), prefix) == Find(line, prefix)
  {
    hide Find, Avoids, Plain;
    var c := Find(line, prefix).value;
    OccursInside(line, prefix, c);
    var head := line[..c + |prefix|];
    assert prefix != "" && other != "" by {
      PlainNonempty(prefix);
      PlainNonempty(other);
    }
    DigitsAvoided(prefix, digits);
    DigitsAvoided(other, digits);
    FindAroundGap(head, digits, "", other);
    FindAroundGap(head, digits, "", prefix);
    assert head + digits + "" == CountLine(line, prefix, digits);
    NotInEmpty(other);
    HeadOccurs(line, c + |prefix|, other);
    HeadOccurs(line, c + |prefix|, prefix);
    assert OccursAt(head, prefix, c) by {
      assert head[c..c + |prefix|] == line[c..c + |prefix|];
    }
    FindIs(head, prefix, c);
  }

  lemma PlainNonempty(prefix: string)
    requires Plain(prefix)
    ensures prefix != ""
  {}

  lemma NotInEmpty(needle: string)
    requires needle != ""
    ensures Find("", needle).None?
  {}

  lemma HeadOccurs(line: string, n: nat, needle: string)
    requires n <= |line|
    ensures forall j :: OccursAt(line[..n], needle, j) ==> OccursAt(line, needle, j)
    ensures Find(line, needle).None? ==> Find(line[..n], needle).None?
  {
    forall j | OccursAt(line[..n], needle, j)
      ensures OccursAt(line, needle, j)
    {
      assert line[..n][j..j + |needle|] == line[j..j + |needle|];
    }
  }

  /** Rewriting one count moves no prefix that lives on another line, nor its own. */
  lemma RewriteKeepsFirstLine(lines: seq<string>, prefix: string, digits: string, other: string)
    requires Plain(prefix) && Plain(other) && AllDigits(digits) && digits != ""
    requires FirstLine(lines, prefix).Some? && FirstLine(lines, other).Some?
    requires other == prefix || FirstLine(lines, prefix) != FirstLine(lines, other)
    ensures FirstLine(RewriteLine(lines, prefix, digits), other) == FirstLine(lines, other)
  {
    hide Find, Plain, CountLine;
    var i, j := FirstLine(lines, prefix).value, FirstLine(lines, other).value;
    var lines' := RewriteLine(lines, prefix, digits);
    CountLineKeeps(lines[i], prefix, digits, other);
    FirstLineIs(lines', other, j);
  }

  lemma {:induction false} RewritesOneByOne(lines: seq<string>, fields: seq<Field>, n: nat) returns (lines': seq<string>)
    requires AreLines(lines) && ArePlain(fields) && OnDistinctLines(lines, fields) && n <= |fields|
    ensures AreLines(lines') && Updated(lines, lines', fields, n)
    ensures RewriteAll(Join(lines, "\n"), fields[..n]) == Ok(Join(lines', "\n"))
    decreases n
  {
    hide Find, FirstLine, CountLine, Plain, Decimal, AllDigits;
    if n == 0 {
      lines' := lines;
    } else {
      var before := RewritesOneByOne(lines, fields, n - 1);
      var f := fields[n - 1];
      assert fields[..n][..n - 1] == fields[..n - 1];
      assert Plain(f.prefix);
      PlainLine(f.prefix);
      ReplacedByLine(before, f.prefix, Decimal(f.value));
      lines' := RewriteLine(before, f.prefix, Decimal(f.value));
      StillUpdated(lines, before, lines', fields, n);
      RewrittenLines(before, f.prefix, f.value);
    }
  }

  lemma PlainLine(prefix: string)
    requires Plain(prefix)
    ensures prefix != "" && '\n' !in prefix
  {}

  lemma RewrittenLines(lines: seq<string>, prefix: string, value: nat)
    requires AreLines(lines) && FirstLine(lines, prefix).Some? && Plain(prefix)
    ensures AreLines(RewriteLine(lines, prefix, Decimal(value)))
  {
    hide Find, FirstLine;
    var i := FirstLine(lines, prefix).value;
    assert '\n' !in Decimal(value);
    OccursInside(lines[i], prefix, Find(lines[i], prefix).value);
    assert '\n' !in CountLine(lines[i], prefix, Decimal(value));
  }

  lemma StillUpdated(lines: seq<string>, before: seq<string>, lines': seq<string>, fields: seq<Field>, n: nat)
    requires 0 < n <= |fields| && ArePlain(fields) && OnDistinctLines(lines, fields)
    requires Updated(lines, before, fields, n - 1)
    requires lines' == RewriteLine(before, fields[n - 1].prefix, Decimal(fields[n - 1].value))
    ensures Updated(lines, lines', fields, n)
  {
    hide Find, FirstLine, CountLine, Plain, Decimal, AllDigits;
    var f := fields[n - 1];
    forall k | 0 <= k < |fields|
      ensures FirstLine(lines', fields[k].prefix) == FirstLine(lines, fields[k].prefix)
    {
      RewriteKeepsFirstLine(before, f.prefix, Decimal(f.value), fields[k].prefix);
    }
    var i := FirstLine(lines, f.prefix).value;
    assert before[i] == lines[i];
  }

  /** With the prefixes on distinct lines, the whole block is rewritten: each count line
    * gets its count, no other line changes, and no line moves. */
  lemma ReportIsRewritten(text: string, fields: seq<Field>) returns (lines': seq<string>)
    requires ArePlain(fields) && OnDistinctLines(Split(text, '\n'), fields)
    ensures RewriteAll(text, fields) == Ok(Join(lines', "\n")) && AreLines(lines')
    ensures Updated(Split(text, '\n'), lines', fields, |fields|)
  {
    hide Updated, OnDistinctLines, Plain;
    var lines := Split(text, '\n');
    assert Join(lines, ['\n']) == text;
    lines' := RewritesOneByOne(lines, fields, |fields|);
    assert fields[..|fields|] == fields;
  }

  /** The count a report shows for a prefix: the rest of its first line with the prefix. */
  function ReadCount(text: string, prefix: string): Option<string> {
    var lines := Split(text, '\n');
    var i := FirstLine(lines, prefix);
    if i.None? then None
    else
      var line := lines[i.value];
      Some(line[Find(line, prefix).value + |prefix|..])
  }

  /** Every count reads back, and rewriting again changes nothing. */
  lemma ReportReadsBack(text: string, fields: seq<Field>)
    requires ArePlain(fields) && OnDistinctLines(Split(text, '\n'), fields)
    ensures var r := RewriteAll(text, fields);
      && r.Ok?
      && (forall k :: 0 <= k < |fields| ==> ReadCount(r.value, fields[k].prefix) == Some(Decimal(fields[k].value)))
      && RewriteAll(r.value, fields) == r
  {
    hide Find, FirstLine, Plain, Decimal, Split, CountLine, AllDigits, RewriteAll, ReadCount, Updated, OnDistinctLines;
    var lines := Split(text, '\n');
    var lines' := ReportIsRewritten(text, fields);
    var text' := Join(lines', "\n");
    SplitOfJoin(lines', '\n');
    forall k | 0 <= k < |fields|
      ensures ReadCount(text', fields[k].prefix) == Some(Decimal(fields[k].value))
    {
      UpdatedReads(lines, lines', fields, k);
    }
    StillDistinct(lines, lines', fields);
    var again := ReportIsRewritten(text', fields);
    UpdatedTwice(lines, lines', again, fields);
  }

  lemma StillDistinct(lines: seq<string>, lines': seq<string>, fields: seq<Field>)
    requires OnDistinctLines(lines, fields) && Updated(lines, lines', fields, |fields|)
    ensures OnDistinctLines(lines', fields)
  {
    hide FirstLine, CountLine, Decimal;
  }

  lemma UpdatedReads(lines: seq<string>, lines': seq<string>, fields: seq<Field>, k: nat)
    requires ArePlain(fields) && OnDistinctLines(lines, fields) && Updated(lines, lines', fields, |fields|)
    requires k < |fields| && AreLines(lines')
    ensures ReadCount(Join(lines', "\n"), fields[k].prefix) == Some(Decimal(fields[k].value))
  {
    hide Find, FirstLine, Plain, Decimal, Split, CountLine, AllDigits;
    SplitOfJoin(lines', '\n');
    CountLineReads(lines[FirstLine(lines, fields[k].prefix).value], fields[k].prefix, fields[k].value);
  }

  lemma UpdatedTwice(lines: seq<string>, lines': seq<string>, again: seq<string>, fields: seq<Field>)
    requires ArePlain(fields) && OnDistinctLines(lines, fields) && Updated(lines, lines', fields, |fields|)
    requires OnDistinctLines(lines', fields) && Updated(lines', again, fields, |fields|)
    ensures again == lines'
  {
    hide Find, FirstLine, Plain, Decimal, CountLine, AllDigits;
    forall i | 0 <= i < |lines'|
      ensures again[i] == lines'[i]
    {
      if k :| 0 <= k < |fields| && FirstLine(lines', fields[k].prefix).value == i {
        CountLineReads(lines[i], fields[k].prefix, fields[k].value);
      }
    }
  }

  lemma CountLineReads(line: string, prefix: string, value: nat)
    requires Plain(prefix) && Find(line, prefix).Some?
    ensures var new_ := CountLine(line, prefix, Decimal(value));
      && Find(new_, prefix) == Find(line, prefix)
      && Find(line, prefix).value + |prefix| <= |new_|
      && new_[Find(line, prefix).value + |prefix|..] == Decimal(value)
      && CountLine(new_, prefix, Decimal(value)) == new_
  {
    hide Find, Plain, Decimal;
    OccursInside(line, prefix, Find(line, prefix).value);
    CountLineKeeps(line, prefix, Decimal(value), prefix);
  }

  lemma ReportPrefixesArePlain(s: Stats)
    ensures ArePlain(ReportFields(s))
  {
    hide Plain;
    ClaimPrefixesArePlain();
    CalibrationPrefixesArePlain();
    LabelPrefixesArePlain();
  }

  lemma ClaimPrefixesArePlain()
    ensures Plain("- Claims: ") && Plain("- Fixture-pinned claims: ") && Plain("- Dogfood-measured claims: ")
  {}

  lemma CalibrationPrefixesArePlain()
    ensures Plain("- Labeled-calibrated claims: ") && Plain("- Policy-eligible claims: ") && Plain("- Calibration cases: ")
  {}

  lemma LabelPrefixesArePlain()
    ensures Plain("- Label ledgers: ") && Plain("- Label samples: ") && Plain("- Labeled reports: ")
  {}

  /** Two prefixes on one line do not both survive: a count written after the earlier one
    * takes the later one with it, and the rewrite then fails. */
  lemma SharedLineLosesACount(lines: seq<string>, first: Field, second: Field, i: nat)
    requires AreLines(lines) && Plain(first.prefix) && Plain(second.prefix)
    requires FirstLine(lines, first.prefix) == Some(i) && FirstLine(lines, second.prefix) == Some(i)
    requires Find(lines[i], first.prefix).value + |first.prefix| <= Find(lines[i], second.prefix).value
    requires forall j :: i < j < |lines| ==> Find(lines[j], second.prefix).None?
    ensures RewriteAll(Join(lines, "\n"), [first, second]) == Err(MissingPrefix(second.prefix))
  {
    hide Find, FirstLine, CountLine, Plain, Decimal, AllDigits, RewriteAll, ReplacePrefixedCountLine, Join;
    PlainLine(first.prefix);
    PlainLine(second.prefix);
    var digits := Decimal(first.value);
    var lines' := RewriteLine(lines, first.prefix, digits);
    RewrittenLines(lines, first.prefix, first.value);
    ReplacedByLine(lines, first.prefix, digits);
    ReplacedByLine(lines', second.prefix, Decimal(second.value));
    LaterPrefixCutOff(lines[i], first.prefix, digits, second.prefix);
    assert forall j :: 0 <= j < |lines'| ==> Find(lines'[j], second.prefix).None?;
    TwoRewrites(Join(lines, "\n"), first, second);
  }

  lemma TwoRewrites(text: string, first: Field, second: Field)
    ensures RewriteAll(text, [first, second])
         == match ReplacePrefixedCountLine(text, first.prefix, Decimal(first.value))
            case Err(e) => Err(e)
            case Ok(before) => ReplacePrefixedCountLine(before, second.prefix, Decimal(second.value))
  {
    hide ReplacePrefixedCountLine, Decimal;
    assert [first, second][..1] == [first] && [first][..0] == [];
    assert RewriteAll(text, [first]) == ReplacePrefixedCountLine(text, first.prefix, Decimal(first.value));
  }

  lemma LaterPrefixCutOff(line: string, prefix: string, digits: string, other: string)
    requires Plain(prefix) && Plain(other) && AllDigits(digits) && digits != ""
    requires Find(line, prefix).Some? && Find(line, other).Some?
    requires Find(line, prefix).value + |prefix| <= Find(line, other).value
    ensures Find(CountLine(line, prefix, digits), other).None?
  {
    hide Find, Avoids, Plain;
    PlainLine(other);
    var n := Find(line, prefix).value + |prefix|;
    OccursInside(line, prefix, Find(line, prefix).value);
    var head := line[..n];
    HeadOccurs(line, n, other);
    assert Find(head, other).None?;
    DigitsAvoided(other, digits);
    FindAroundGap(head, digits, "", other);
    NotInEmpty(other);
    assert head + digits + "" == CountLine(line, prefix, digits);
  }

  /** The other way round the failure is silent: with the second prefix to the left of the
    * first, and no later line that holds the first, the rewrite succeeds and the count
    * that was just written is gone. */
  lemma SharedLineDropsACount(lines: seq<string>, first: Field, second: Field, i: nat)
    requires AreLines(lines) && Plain(first.prefix) && Plain(second.prefix)
    requires FirstLine(lines, first.prefix) == Some(i) && FirstLine(lines, second.prefix) == Some(i)
    requires Find(lines[i], second.prefix).value + |second.prefix| <= Find(lines[i], first.prefix).value
    requires forall j :: i < j < |lines| ==> Find(lines[j], first.prefix).None?
    ensures var r := RewriteAll(Join(lines, "\n"), [first, second]);
      && r.Ok?
      && ReadCount(r.value, first.prefix) == None
      && ReadCount(r.value, second.prefix) == Some(Decimal(second.value))
  {
    hide Find, FirstLine, CountLine, Plain, AreLines, Decimal, AllDigits, RewriteAll, ReplacePrefixedCountLine, Join, ReadCount;
    var line, d, d' := lines[i], Decimal(first.value), Decimal(second.value);
    EarlierPrefixKept(line, first.prefix, d, second.prefix);
    var once := Rewritten(lines, first, i);
    StillFirst(lines, second.prefix, i, once[i]);
    var twice := Rewritten(once, second, i);
    LaterPrefixCutOff(once[i], second.prefix, d', first.prefix);
    assert twice == lines[i := twice[i]];
    NowAbsent(lines, first.prefix, i, twice[i]);
    LinesRead(twice, first.prefix);
    TwoRewrites(Join(lines, "\n"), first, second);
  }

  /** One count written on its line, and read there again. */
  lemma Rewritten(lines: seq<string>, f: Field, i: nat) returns (lines': seq<string>)
    requires AreLines(lines) && Plain(f.prefix) && FirstLine(lines, f.prefix) == Some(i)
    ensures lines' == lines[i := CountLine(lines[i], f.prefix, Decimal(f.value))] && AreLines(lines')
    ensures ReplacePrefixedCountLine(Join(lines, "\n"), f.prefix, Decimal(f.value)) == Ok(Join(lines', "\n"))
    ensures FirstLine(lines', f.prefix) == Some(i)
    ensures ReadCount(Join(lines', "\n"), f.prefix) == Some(Decimal(f.value))
  {
    hide Find, FirstLine, CountLine, Plain, AreLines, Decimal, AllDigits, ReplacePrefixedCountLine, Join, ReadCount;
    PlainLine(f.prefix);
    RewrittenLines(lines, f.prefix, f.value);
    ReplacedByLine(lines, f.prefix, Decimal(f.value));
    lines' := RewriteLine(lines, f.prefix, Decimal(f.value));
    CountLineReads(lines[i], f.prefix, f.value);
    StillFirst(lines, f.prefix, i, lines'[i]);
    LinesRead(lines', f.prefix);
  }

  lemma StillFirst(lines: seq<string>, prefix: string, i: nat, line: string)
    requires FirstLine(lines, prefix) == Some(i) && Find(line, prefix).Some?
    ensures FirstLine(lines[i := line], prefix) == Some(i)
  {
    hide Find;
    FirstLineIs(lines[i := line], prefix, i);
  }

  lemma NowAbsent(lines: seq<string>, prefix: string, i: nat, line: string)
    requires FirstLine(lines, prefix) == Some(i) && Find(line, prefix).None?
    requires forall j :: i < j < |lines| ==> Find(lines[j], prefix).None?
    ensures FirstLine(lines[i := line], prefix) == None
  {
    hide Find, FirstLine;
    var lines' := lines[i := line];
    assert forall j :: 0 <= j < |lines'| ==> Find(lines'[j], prefix).None?;
  }

  /** A later line that holds the cut-off prefix takes its count instead: both counts then
    * read back, but the second stands on a line that was not its own. */
  lemma SharedLineMovesACount(lines: seq<string>, first: Field, second: Field, i: nat, j: nat)
    requires AreLines(lines) && Plain(first.prefix) && Plain(second.prefix)
    requires FirstLine(lines, first.prefix) == Some(i) && FirstLine(lines, second.prefix) == Some(i)
    requires Find(lines[i], first.prefix).value + |first.prefix| <= Find(lines[i], second.prefix).value
    requires i < j < |lines| && Find(lines[j], second.prefix).Some?
    requires forall k :: i < k < j ==> Find(lines[k], second.prefix).None?
    ensures var r := RewriteAll(Join(lines, "\n"), [first, second]);
      && r.Ok?
      && ReadCount(r.value, first.prefix) == Some(Decimal(first.value))
      && ReadCount(r.value, second.prefix) == Some(Decimal(second.value))
      && |Split(r.value, '\n')| == |lines|
      && Split(r.value, '\n')[j] == CountLine(lines[j], second.prefix, Decimal(second.value))
  {
    hide Find, FirstLine, CountLine, Plain, AreLines, Decimal, AllDigits, RewriteAll, ReplacePrefixedCountLine, Join, ReadCount, Split;
    LaterPrefixCutOff(lines[i], first.prefix, Decimal(first.value), second.prefix);
    var once := Rewritten(lines, first, i);
    FirstLineIs(once, second.prefix, j);
    var twice := Rewritten(once, second, j);
    TwoRewrites(Join(lines, "\n"), first, second);
    FirstLineIs(twice, first.prefix, i);
    LinesRead(once, first.prefix);
    LinesRead(twice, first.prefix);
    AreLinesNoBreaks(twice);
    SplitOfJoin(twice, '\n');
  }

  lemma AreLinesNoBreaks(lines: seq<string>)
    requires AreLines(lines)
    ensures lines != [] && forall i :: 0 <= i < |lines| ==> '\n' !in lines[i]
  {}

  lemma LinesRead(lines: seq<string>, prefix: string)
    requires AreLines(lines)
    ensures ReadCount(Join(lines, "\n"), prefix)
         == match FirstLine(lines, prefix)
            case None => None
            case Some(i) => Some(lines[i][Find(lines[i], prefix).value + |prefix|..])
  {
    hide FirstLine, Find, Split, Join;
    SplitOfJoin(lines, '\n');
  }

  lemma EarlierPrefixKept(line: string, prefix: string, digits: string, other: string)
    requires Plain(prefix) && Plain(other) && AllDigits(digits) && digits != ""
    requires Find(line, prefix).Some? && Find(line, other).Some?
    requires Find(line, other).value + |other| <= Find(line, prefix).value
    ensures Find(CountLine(line, prefix, digits), other) == Find(line, other)
    ensures Find(CountLine(line, prefix, digits), prefix) == Find(line, prefix)
  {
    hide Find, Avoids, Plain;
    PlainLine(other);
    var n := Find(line, prefix).value + |prefix|;
    OccursInside(line, prefix, Find(line, prefix).value);
    var head, at := line[..n], Find(line, other).value;
    HeadOccurs(line, n, other);
    assert OccursAt(head, other, at) by {
      assert head[at..at + |other|] == line[at..at + |other|];
    }
    FindIs(head, other, at);
    DigitsAvoided(other, digits);
    FindAroundGap(head, digits, "", other);
    assert head + digits + "" == CountLine(line, prefix, digits);
    CountLineKeeps(line, prefix, digits, other);
  }

  // ---------- exactly when every count lands on its line ----------

  /** The rewrite succeeds and every count stands on the line that held its prefix first. */
  ghost predicate CountsInPlace(text: string, fields: seq<Field>) {
    var r, lines := RewriteAll(text, fields), Split(text, '\n');
    && r.Ok?
    && |Split(r.value, '\n')| == |lines|
    && forall k :: 0 <= k < |fields| ==> InPlace(lines, Split(r.value, '\n'), fields[k])
  }

  predicate InPlace(lines: seq<string>, lines': seq<string>, f: Field)
    requires |lines'| == |lines|
  {
    var i := FirstLine(lines, f.prefix);
    i.Some? && lines'[i.value] == CountLine(lines[i.value], f.prefix, Decimal(f.value))
  }

  /** No field's prefix is the end of another's. */
  ghost predicate NoneEnds(fields: seq<Field>) {
    forall k, k' :: 0 <= k < |fields| && 0 <= k' < |fields| && k != k' ==>
      !EndsWith(fields[k].prefix, fields[k'].prefix)
  }

  /** For such prefixes the counts land in place exactly when the lines are distinct. */
  lemma CountsInPlaceExactlyWhen(text: string, fields: seq<Field>)
    requires ArePlain(fields) && NoneEnds(fields)
    ensures CountsInPlace(text, fields) <==> OnDistinctLines(Split(text, '\n'), fields)
  {
    hide Find, FirstLine, Plain, Decimal, Split, CountLine, AllDigits, RewriteAll, EndsWith, Join;
    var lines := Split(text, '\n');
    if OnDistinctLines(lines, fields) {
      var lines' := ReportIsRewritten(text, fields);
      SplitOfJoin(lines', '\n');
    }
    if CountsInPlace(text, fields) {
      var lines' := Split(RewriteAll(text, fields).value, '\n');
      forall k, k' | 0 <= k < k' < |fields|
        ensures FirstLine(lines, fields[k].prefix) != FirstLine(lines, fields[k'].prefix)
      {
        assert InPlace(lines, lines', fields[k]) && InPlace(lines, lines', fields[k']);
        var i := FirstLine(lines, fields[k].prefix).value;
        if FirstLine(lines, fields[k'].prefix) == Some(i) {
          SameCountLine(lines[i], fields[k].prefix, fields[k].value, fields[k'].prefix, fields[k'].value);
        }
      }
    }
  }

  /** Two counts that give one line end their prefixes at one place. */
  lemma SameCountLine(line: string, p: string, v: nat, q: string, w: nat)
    requires Plain(p) && Plain(q) && Find(line, p).Some? && Find(line, q).Some?
    requires CountLine(line, p, Decimal(v)) == CountLine(line, q, Decimal(w))
    ensures EndsWith(p, q) || EndsWith(q, p)
  {
    hide Find, Decimal, EndsWith;
    var i, j := Find(line, p).value, Find(line, q).value;
    OccursInside(line, p, i);
    OccursInside(line, q, j);
    assert line[i..i + |p|] == p && line[j..j + |q|] == q;
    SameDigitTail(line[..i + |p|], Decimal(v), line[..j + |q|], Decimal(w));
    EndTogether(line, p, q);
  }

  lemma EndTogether(line: string, p: string, q: string)
    requires Find(line, p).Some? && Find(line, q).Some? && EndOn(line, p) == EndOn(line, q)
    ensures EndsWith(p, q) || EndsWith(q, p)
  {
    hide Find;
    var i, j := Find(line, p).value, Find(line, q).value;
    OccursInside(line, p, i);
    OccursInside(line, q, j);
    assert line[i..i + |p|] == p && line[j..j + |q|] == q;
    if |q| <= |p| {
      assert p[|p| - |q|..] == line[j..j + |q|];
    } else {
      assert q[|q| - |p|..] == line[i..i + |p|];
    }
  }

  /** Where the first prefix on the line ends. */
  function EndOn(line: string, prefix: string): nat
    requires Find(line, prefix).Some?
  {
    Find(line, prefix).value + |prefix|
  }

  lemma SameDigitTail(head: string, digits: string, head': string, digits': string)
    requires AllDigits(digits) && AllDigits(digits') && head + digits == head' + digits'
    requires head != "" && !IsDigit(head[|head| - 1]) && head' != "" && !IsDigit(head'[|head'| - 1])
    ensures |head| == |head'|
  {
    var line := head + digits;
    assert line[|head| - 1] == head[|head| - 1] && line[|head'| - 1] == head'[|head'| - 1];
    assert forall i :: |head| <= i < |line| ==> line[i] == digits[i - |head|];
    assert forall i :: |head'| <= i < |line| ==> line[i] == digits'[i - |head'|];
  }

  // ---------- exactly when the rewrite succeeds and the counts read back ----------

  /** The prefix still stands on line j when the counts of the first n fields have been written
    * on the lines that homes gives: none of them cuts it off. */
  ghost predicate Stands(lines: seq<string>, fields: seq<Field>, homes: seq<nat>, n: nat, prefix: string, j: nat)
    requires n <= |homes| && n <= |fields|
  {
    j < |lines| && Find(lines[j], prefix).Some? &&
    forall k :: 0 <= k < n && homes[k] == j && Find(lines[j], fields[k].prefix).Some? ==>
      EndOn(lines[j], prefix) <= EndOn(lines[j], fields[k].prefix)
  }

  /** The field's home is the first line on which its prefix stands when its turn comes. */
  ghost predicate IsHome(lines: seq<string>, fields: seq<Field>, homes: seq<nat>, k: nat)
    requires k < |homes| && k < |fields|
  {
    Stands(lines, fields, homes, k, fields[k].prefix, homes[k]) &&
    forall j: nat :: j < homes[k] ==> !Stands(lines, fields, homes, k, fields[k].prefix, j)
  }

  ghost predicate HaveHomes(lines: seq<string>, fields: seq<Field>, homes: seq<nat>, n: nat) {
    n <= |homes| && n <= |fields| && forall k :: 0 <= k < n ==> IsHome(lines, fields, homes, k)
  }

  /** What is on line j after the first n fields: the count of the last of them at home there. */
  function LineAfter(lines: seq<string>, fields: seq<Field>, homes: seq<nat>, n: nat, j: nat): string
    requires n <= |homes| && n <= |fields| && j < |lines|
  {
    if n == 0 then lines[j]
    else if homes[n - 1] == j && Find(lines[j], fields[n - 1].prefix).Some? then
      CountLine(lines[j], fields[n - 1].prefix, Decimal(fields[n - 1].value))
    else LineAfter(lines, fields, homes, n - 1, j)
  }

  function LinesAfter(lines: seq<string>, fields: seq<Field>, homes: seq<nat>, n: nat): (r: seq<string>)
    requires n <= |homes| && n <= |fields|
    ensures |r| == |lines|
  {
    seq(|lines|, j requires 0 <= j < |lines| => LineAfter(lines, fields, homes, n, j))
  }

  lemma HeadFinds(line: string, n: nat, needle: string)
    requires n <= |line|
    ensures Find(line[..n], needle)
         == if Find(line, needle).Some? && EndOn(line, needle) <= n then Find(line, needle) else None
  {
    hide Find;
    var head := line[..n];
    HeadOccurs(line, n, needle);
    var r := Find(line, needle);
    if r.Some? && EndOn(line, needle) <= n {
      assert head[r.value..r.value + |needle|] == line[r.value..r.value + |needle|];
      FindIs(head, needle, r.value);
    }
    FoundInHead(line, n, needle);
  }

  lemma FoundInHead(line: string, n: nat, needle: string)
    requires n <= |line|
    ensures Find(line[..n], needle).Some? ==> Find(line, needle).Some? && EndOn(line, needle) <= n
  {
    hide Find;
    HeadOccurs(line, n, needle);
    var r := Find(line[..n], needle);
    if r.Some? {
      OccursInside(line[..n], needle, r.value);
      assert OccursAt(line, needle, r.value);
    }
  }

  /** A count line holds of a plain string what stands before its count. */
  lemma CountLineFinds(line: string, prefix: string, digits: string, other: string)
    requires Plain(prefix) && Plain(other) && AllDigits(digits) && digits != "" && Find(line, prefix).Some?
    ensures Find(CountLine(line, prefix, digits), other)
         == if Find(line, other).Some? && EndOn(line, other) <= EndOn(line, prefix) then Find(line, other) else None
    ensures EndOn(line, prefix) <= |line| && EndOn(line, prefix) <= |CountLine(line, prefix, digits)|
    ensures CountLine(line, prefix, digits)[..EndOn(line, prefix)] == line[..EndOn(line, prefix)]
  {
    hide Find, Avoids, Plain;
    var n := EndOn(line, prefix);
    OccursInside(line, prefix, Find(line, prefix).value);
    PlainLine(other);
    DigitsAvoided(other, digits);
    FindAroundGap(line[..n], digits, "", other);
    NotInEmpty(other);
    assert line[..n] + digits + "" == CountLine(line, prefix, digits);
    HeadFinds(line, n, other);
  }

  lemma LastHome(lines: seq<string>, fields: seq<Field>, homes: seq<nat>, n: nat, other: string, j: nat)
    requires 0 < n && HaveHomes(lines, fields, homes, n) && j < |lines| && homes[n - 1] == j
    ensures Find(lines[j], fields[n - 1].prefix).Some?
    ensures Stands(lines, fields, homes, n, other, j)
       <==> Find(lines[j], other).Some? && EndOn(lines[j], other) <= EndOn(lines[j], fields[n - 1].prefix)
  {
    hide Find;
    assert IsHome(lines, fields, homes, n - 1);
  }

  /** On the lines as they are after n fields, a plain string is found where it stands. */
  lemma {:induction false} FoundWhereItStands(lines: seq<string>, fields: seq<Field>, homes: seq<nat>, n: nat, other: string, j: nat)
    requires HaveHomes(lines, fields, homes, n) && ArePlain(fields) && Plain(other) && j < |lines|
    ensures var line := LineAfter(lines, fields, homes, n, j);
      && Find(line, other) == (if Stands(lines, fields, homes, n, other, j) then Find(lines[j], other) else None)
      && (Stands(lines, fields, homes, n, other, j) ==>
            EndOn(lines[j], other) <= |lines[j]| && EndOn(lines[j], other) <= |line|
            && line[..EndOn(lines[j], other)] == lines[j][..EndOn(lines[j], other)])
  {
    hide Find, Plain, Decimal, AllDigits, CountLine;
    var line := LineAfter(lines, fields, homes, n, j);
    if n == 0 {
      if Find(lines[j], other).Some? {
        OccursInside(lines[j], other, Find(lines[j], other).value);
      }
    } else if homes[n - 1] == j {
      LastHome(lines, fields, homes, n, other, j);
      var f := fields[n - 1];
      CountLineFinds(lines[j], f.prefix, Decimal(f.value), other);
      if Stands(lines, fields, homes, n, other, j) {
        var e := EndOn(lines[j], other);
        OccursInside(line, other, Find(line, other).value);
        SliceAgrees(line, lines[j], EndOn(lines[j], f.prefix), e);
      }
    } else {
      FoundWhereItStands(lines, fields, homes, n - 1, other, j);
    }
  }

  lemma SliceAgrees(a: string, b: string, n: nat, e: nat)
    requires e <= n <= |b| && n <= |a| && a[..n] == b[..n]
    ensures a[..e] == b[..e]
  {
    assert a[..e] == a[..n][..e] && b[..e] == b[..n][..e];
  }

  lemma SameCount(a: string, b: string, prefix: string, count: string)
    requires Find(a, prefix).Some? && Find(b, prefix) == Find(a, prefix) && EndOn(a, prefix) <= |a| && EndOn(a, prefix) <= |b|
    requires a[..EndOn(a, prefix)] == b[..EndOn(a, prefix)]
    ensures CountLine(a, prefix, count) == CountLine(b, prefix, count)
  {
    hide Find;
  }

  /** The next field's home is where its prefix is first found, and the rewrite there gives the
    * lines after it. */
  lemma NextHome(lines: seq<string>, fields: seq<Field>, homes: seq<nat>, n: nat)
    requires n < |fields| && ArePlain(fields) && HaveHomes(lines, fields, homes, n)
    ensures var first := FirstLine(LinesAfter(lines, fields, homes, n), fields[n].prefix);
      && (first.Some? ==> Stands(lines, fields, homes, n, fields[n].prefix, first.value))
      && (forall j: nat :: (first.Some? ==> j < first.value) ==> !Stands(lines, fields, homes, n, fields[n].prefix, j))
  {
    hide Find, FirstLine, Plain, Stands, LineAfter;
    var after, p := LinesAfter(lines, fields, homes, n), fields[n].prefix;
    forall j: nat
      ensures Stands(lines, fields, homes, n, p, j) <==> j < |lines| && Find(after[j], p).Some?
    {
      if j < |lines| {
        FoundWhereItStands(lines, fields, homes, n, p, j);
        StandsOnLine(lines, fields, homes, n, p, j);
      } else {
        StandsOnLine(lines, fields, homes, n, p, j);
      }
    }
  }

  lemma StandsOnLine(lines: seq<string>, fields: seq<Field>, homes: seq<nat>, n: nat, prefix: string, j: nat)
    requires n <= |homes| && n <= |fields|
    ensures Stands(lines, fields, homes, n, prefix, j) ==> j < |lines| && Find(lines[j], prefix).Some?
  {}

  lemma WrittenAtHome(lines: seq<string>, fields: seq<Field>, homes: seq<nat>, n: nat)
    requires n < |fields| && ArePlain(fields) && HaveHomes(lines, fields, homes, n + 1)
    ensures var before, f := LinesAfter(lines, fields, homes, n), fields[n];
      && FirstLine(before, f.prefix) == Some(homes[n])
      && RewriteLine(before, f.prefix, Decimal(f.value)) == LinesAfter(lines, fields, homes, n + 1)
  {
    hide Find, FirstLine, Plain, Stands, CountLine, Decimal;
    var before, f, h := LinesAfter(lines, fields, homes, n), fields[n], homes[n];
    assert IsHome(lines, fields, homes, n);
    NextHome(lines, fields, homes, n);
    StandsOnLine(lines, fields, homes, n, f.prefix, h);
    FoundWhereItStands(lines, fields, homes, n, f.prefix, h);
    SameCount(lines[h], before[h], f.prefix, Decimal(f.value));
    var after := RewriteLine(before, f.prefix, Decimal(f.value));
    assert forall j :: 0 <= j < |lines| ==> after[j] == LinesAfter(lines, fields, homes, n + 1)[j];
  }

  /** With a home for each of the first n fields, their rewrite succeeds and gives these lines. */
  lemma {:induction false} RewrittenAtHome(lines: seq<string>, fields: seq<Field>, homes: seq<nat>, n: nat)
    requires AreLines(lines) && ArePlain(fields) && HaveHomes(lines, fields, homes, n)
    ensures AreLines(LinesAfter(lines, fields, homes, n))
    ensures RewriteAll(Join(lines, "\n"), fields[..n]) == Ok(Join(LinesAfter(lines, fields, homes, n), "\n"))
  {
    hide Find, FirstLine, Plain, AreLines, Decimal, CountLine, IsHome, RewriteLine, ReplacePrefixedCountLine, Join;
    if n == 0 {
      assert LinesAfter(lines, fields, homes, 0) == lines;
    } else {
      RewrittenAtHome(lines, fields, homes, n - 1);
      var before, f := LinesAfter(lines, fields, homes, n - 1), fields[n - 1];
      assert fields[..n][..n - 1] == fields[..n - 1];
      WrittenAtHome(lines, fields, homes, n - 1);
      PlainLine(f.prefix);
      ReplacedByLine(before, f.prefix, Decimal(f.value));
      RewrittenLines(before, f.prefix, f.value);
    }
  }

  /** A rewrite that succeeds has found a home for each field. */
  lemma {:induction false} HomesFound(lines: seq<string>, fields: seq<Field>, n: nat) returns (homes: seq<nat>)
    requires AreLines(lines) && ArePlain(fields) && n <= |fields| && RewriteAll(Join(lines, "\n"), fields[..n]).Ok?
    ensures |homes| == n && HaveHomes(lines, fields, homes, n)
  {
    hide Find, FirstLine, Plain, AreLines, Decimal, CountLine, Stands, ReplacePrefixedCountLine, Join;
    if n == 0 {
      homes := [];
    } else {
      assert fields[..n][..n - 1] == fields[..n - 1];
      var front := HomesFound(lines, fields, n - 1);
      RewrittenAtHome(lines, fields, front, n - 1);
      var before, f := LinesAfter(lines, fields, front, n - 1), fields[n - 1];
      PlainLine(f.prefix);
      ReplacedByLine(before, f.prefix, Decimal(f.value));
      NextHome(lines, fields, front, n - 1);
      var first := FirstLine(before, f.prefix);
      homes := front + [first.value];
      forall k | 0 <= k < n
        ensures IsHome(lines, fields, homes, k)
      {
        if k < n - 1 {
          SameHome(lines, fields, front, homes, k);
        } else {
          forall j: nat
            ensures Stands(lines, fields, homes, k, f.prefix, j) <==> Stands(lines, fields, front, k, f.prefix, j)
          {
            SameStands(lines, fields, front, homes, k, f.prefix, j);
          }
        }
      }
    }
  }

  lemma SameHome(lines: seq<string>, fields: seq<Field>, homes: seq<nat>, homes': seq<nat>, k: nat)
    requires k < |homes| && k < |homes'| && k < |fields| && forall i :: 0 <= i <= k ==> homes[i] == homes'[i]
    requires IsHome(lines, fields, homes, k)
    ensures IsHome(lines, fields, homes', k)
  {
    hide Stands;
    forall j: nat
      ensures Stands(lines, fields, homes', k, fields[k].prefix, j) <==> Stands(lines, fields, homes, k, fields[k].prefix, j)
    {
      SameStands(lines, fields, homes, homes', k, fields[k].prefix, j);
    }
  }

  lemma SameStands(lines: seq<string>, fields: seq<Field>, homes: seq<nat>, homes': seq<nat>, n: nat, prefix: string, j: nat)
    requires n <= |homes| && n <= |homes'| && n <= |fields| && forall k :: 0 <= k < n ==> homes[k] == homes'[k]
    ensures Stands(lines, fields, homes, n, prefix, j) <==> Stands(lines, fields, homes', n, prefix, j)
  {
    hide Find;
  }

  /** The rewrite succeeds exactly when every field, in its turn, still stands on some line. */
  lemma RewriteSucceedsExactlyWhen(text: string, fields: seq<Field>)
    requires ArePlain(fields)
    ensures RewriteAll(text, fields).Ok? <==> exists homes :: HaveHomes(Split(text, '\n'), fields, homes, |fields|)
  {
    hide Split, HaveHomes, Plain, RewriteAll, AreLines, LinesAfter;
    var lines, n := Split(text, '\n'), |fields|;
    assert fields[..n] == fields;
    SplitIsLines(text);
    if RewriteAll(text, fields).Ok? {
      var homes := HomesFound(lines, fields, n);
    }
    if homes :| HaveHomes(lines, fields, homes, n) {
      HomesInRange(lines, fields, homes, n);
      RewrittenAtHome(lines, fields, homes, n);
    }
  }

  lemma HomesInRange(lines: seq<string>, fields: seq<Field>, homes: seq<nat>, n: nat)
    requires HaveHomes(lines, fields, homes, n)
    ensures n <= |homes| && n <= |fields|
  {}

  /** The count written for field k is still there at the end: no later field has the same home. */
  ghost predicate Survives(homes: seq<nat>, n: nat, k: nat)
    requires k < n <= |homes|
  {
    forall m :: k < m < n ==> homes[m] != homes[k]
  }

  /** Line j is the first on which field k's prefix stands at the end, no count has been written
    * there, and it happened to show the right count from the start. */
  ghost predicate ShownAlready(lines: seq<string>, fields: seq<Field>, homes: seq<nat>, n: nat, k: nat, j: nat)
    requires k < n <= |homes| && n <= |fields|
  {
    var p := fields[k].prefix;
    && Stands(lines, fields, homes, n, p, j) && (forall i: nat :: i < j ==> !Stands(lines, fields, homes, n, p, i))
    && (forall m :: 0 <= m < n ==> homes[m] != j)
    && EndOn(lines[j], p) <= |lines[j]| && lines[j][EndOn(lines[j], p)..] == Decimal(fields[k].value)
  }

  ghost predicate Kept(lines: seq<string>, fields: seq<Field>, homes: seq<nat>, n: nat, k: nat)
    requires k < n <= |homes| && n <= |fields|
  {
    Survives(homes, n, k) || exists j: nat :: ShownAlready(lines, fields, homes, n, k, j)
  }

  /** Every field finds a home, and each count survives there or was already shown by the line
    * that takes its place. */
  ghost predicate AllKept(lines: seq<string>, fields: seq<Field>, homes: seq<nat>) {
    HaveHomes(lines, fields, homes, |fields|) &&
    forall k :: 0 <= k < |fields| ==> Kept(lines, fields, homes, |fields|, k)
  }

  ghost predicate CountsReadBack(text: string, fields: seq<Field>) {
    var r := RewriteAll(text, fields);
    r.Ok? && forall k :: 0 <= k < |fields| ==> ReadCount(r.value, fields[k].prefix) == Some(Decimal(fields[k].value))
  }

  lemma FirstStanding(lines: seq<string>, fields: seq<Field>, homes: seq<nat>, n: nat, prefix: string, j: nat)
    requires ArePlain(fields) && Plain(prefix) && HaveHomes(lines, fields, homes, n)
    requires Stands(lines, fields, homes, n, prefix, j) && forall i: nat :: i < j ==> !Stands(lines, fields, homes, n, prefix, i)
    ensures j < |lines| && FirstLine(LinesAfter(lines, fields, homes, n), prefix) == Some(j)
  {
    hide Find, FirstLine, Plain, Stands, LineAfter;
    StandsOnLine(lines, fields, homes, n, prefix, j);
    var after := LinesAfter(lines, fields, homes, n);
    forall i: nat | i <= j
      ensures Find(after[i], prefix).Some? <==> i == j
    {
      FoundWhereItStands(lines, fields, homes, n, prefix, i);
    }
    FirstLineIs(after, prefix, j);
  }

  /** A field that survives is found at home. */
  lemma SurvivorStands(lines: seq<string>, fields: seq<Field>, homes: seq<nat>, n: nat, k: nat)
    requires k < n && HaveHomes(lines, fields, homes, n) && Survives(homes, n, k)
    ensures Stands(lines, fields, homes, n, fields[k].prefix, homes[k])
    ensures forall i: nat :: i < homes[k] ==> !Stands(lines, fields, homes, n, fields[k].prefix, i)
  {
    hide Find;
    assert IsHome(lines, fields, homes, k);
    forall i: nat | i < homes[k]
      ensures !Stands(lines, fields, homes, n, fields[k].prefix, i)
    {
      assert !Stands(lines, fields, homes, k, fields[k].prefix, i);
    }
  }

  lemma {:induction false} SurvivorsLine(lines: seq<string>, fields: seq<Field>, homes: seq<nat>, n: nat, k: nat)
    requires k < n && HaveHomes(lines, fields, homes, n) && Survives(homes, n, k)
    ensures homes[k] < |lines| && Find(lines[homes[k]], fields[k].prefix).Some?
    ensures LineAfter(lines, fields, homes, n, homes[k])
         == CountLine(lines[homes[k]], fields[k].prefix, Decimal(fields[k].value))
    decreases n
  {
    hide Find, CountLine, Decimal, Stands;
    assert IsHome(lines, fields, homes, k);
    StandsOnLine(lines, fields, homes, k, fields[k].prefix, homes[k]);
    if n - 1 > k {
      SurvivorsLine(lines, fields, homes, n - 1, k);
    }
  }

  lemma {:induction false} UntouchedLine(lines: seq<string>, fields: seq<Field>, homes: seq<nat>, n: nat, j: nat)
    requires n <= |homes| && n <= |fields| && j < |lines| && forall m :: 0 <= m < n ==> homes[m] != j
    ensures LineAfter(lines, fields, homes, n, j) == lines[j]
  {
    hide Find, CountLine, Decimal;
    if n > 0 {
      UntouchedLine(lines, fields, homes, n - 1, j);
    }
  }

  lemma KeptReads(lines: seq<string>, fields: seq<Field>, homes: seq<nat>, n: nat, k: nat)
    requires ArePlain(fields) && HaveHomes(lines, fields, homes, n) && k < n && AreLines(LinesAfter(lines, fields, homes, n))
    requires Kept(lines, fields, homes, n, k)
    ensures ReadCount(Join(LinesAfter(lines, fields, homes, n), "\n"), fields[k].prefix) == Some(Decimal(fields[k].value))
  {
    hide Find, FirstLine, Plain, Stands, LineAfter, CountLine, Decimal, ReadCount, Join, AreLines;
    var p := fields[k].prefix;
    if Survives(homes, n, k) {
      SurvivorStands(lines, fields, homes, n, k);
      FirstStanding(lines, fields, homes, n, p, homes[k]);
      SurvivorsLine(lines, fields, homes, n, k);
      CountLineReads(lines[homes[k]], p, fields[k].value);
    } else {
      var j: nat :| ShownAlready(lines, fields, homes, n, k, j);
      FirstStanding(lines, fields, homes, n, p, j);
      UntouchedLine(lines, fields, homes, n, j);
    }
    LinesRead(LinesAfter(lines, fields, homes, n), p);
  }

  lemma {:induction false} LastWriter(lines: seq<string>, fields: seq<Field>, homes: seq<nat>, n: nat, j: nat) returns (w: nat)
    requires HaveHomes(lines, fields, homes, n) && j < |lines| && exists m :: 0 <= m < n && homes[m] == j
    ensures w < n && homes[w] == j && Find(lines[j], fields[w].prefix).Some?
    ensures LineAfter(lines, fields, homes, n, j) == CountLine(lines[j], fields[w].prefix, Decimal(fields[w].value))
  {
    hide Find, CountLine, Decimal, Stands;
    if homes[n - 1] == j {
      w := n - 1;
      assert IsHome(lines, fields, homes, w);
      StandsOnLine(lines, fields, homes, w, fields[w].prefix, homes[w]);
    } else {
      w := LastWriter(lines, fields, homes, n - 1, j);
    }
  }

  /** Behind a prefix that another field's prefix follows there is more than a number. */
  lemma NoNumberBetween(line: string, p: string, q: string, digits: string)
    requires Plain(q) && Find(line, p).Some? && Find(line, q).Some? && EndOn(line, p) < EndOn(line, q)
    ensures EndOn(line, p) <= |CountLine(line, q, digits)| && !AllDigits(CountLine(line, q, digits)[EndOn(line, p)..])
  {
    hide Find;
    var i, e := Find(line, q).value, EndOn(line, p);
    OccursInside(line, q, i);
    var counted := CountLine(line, q, digits);
    var tail := counted[e..];
    assert tail[i + |q| - 1 - e] == counted[i + |q| - 1] == line[i + |q| - 1];
    assert line[i..i + |q|][|q| - 1] == line[i + |q| - 1];
  }

  /** A field that does not survive stands at home no longer. */
  lemma LostAtHome(lines: seq<string>, fields: seq<Field>, homes: seq<nat>, n: nat, k: nat)
    requires NoneEnds(fields) && HaveHomes(lines, fields, homes, n) && k < n && !Survives(homes, n, k)
    ensures !Stands(lines, fields, homes, n, fields[k].prefix, homes[k])
  {
    hide Find, EndsWith, EndOn;
    var m :| k < m < n && homes[m] == homes[k];
    assert IsHome(lines, fields, homes, k) && IsHome(lines, fields, homes, m);
    var line := lines[homes[k]];
    if EndOn(line, fields[k].prefix) == EndOn(line, fields[m].prefix) {
      EndTogether(line, fields[k].prefix, fields[m].prefix);
      assert false;
    }
  }

  lemma ReadMeansKept(lines: seq<string>, fields: seq<Field>, homes: seq<nat>, n: nat, k: nat)
    requires ArePlain(fields) && NoneEnds(fields) && HaveHomes(lines, fields, homes, n) && k < n
    requires AreLines(LinesAfter(lines, fields, homes, n))
    requires ReadCount(Join(LinesAfter(lines, fields, homes, n), "\n"), fields[k].prefix) == Some(Decimal(fields[k].value))
    ensures Kept(lines, fields, homes, n, k)
  {
    hide Find, FirstLine, Plain, Stands, LineAfter, CountLine, Decimal, ReadCount, Join, AreLines, NoneEnds, AllDigits, Survives;
    var p, after := fields[k].prefix, LinesAfter(lines, fields, homes, n);
    if !Survives(homes, n, k) {
      LinesRead(after, p);
      var j := FirstLine(after, p).value;
      forall i: nat | i <= j
        ensures Stands(lines, fields, homes, n, p, i) <==> i == j
      {
        FoundWhereItStands(lines, fields, homes, n, p, i);
        StandsOnLine(lines, fields, homes, n, p, i);
        assert Find(after[i], p).Some? <==> i == j;
      }
      FoundWhereItStands(lines, fields, homes, n, p, j);
      LostAtHome(lines, fields, homes, n, k);
      if m :| 0 <= m < n && homes[m] == j {
        Overwritten(lines, fields, homes, n, k, j);
      } else {
        UntouchedLine(lines, fields, homes, n, j);
        assert ShownAlready(lines, fields, homes, n, k, j);
      }
    }
  }

  /** On a line that got another field's count, no other prefix is followed by a number. */
  lemma Overwritten(lines: seq<string>, fields: seq<Field>, homes: seq<nat>, n: nat, k: nat, j: nat)
    requires ArePlain(fields) && NoneEnds(fields) && HaveHomes(lines, fields, homes, n) && k < n && homes[k] != j
    requires Stands(lines, fields, homes, n, fields[k].prefix, j) && exists m :: 0 <= m < n && homes[m] == j
    ensures Find(lines[j], fields[k].prefix).Some?
    ensures var e, line := EndOn(lines[j], fields[k].prefix), LineAfter(lines, fields, homes, n, j);
      e <= |line| && !AllDigits(line[e..])
  {
    hide Find, Plain, CountLine, Decimal, AllDigits, LineAfter, EndsWith, EndOn;
    var w := LastWriter(lines, fields, homes, n, j);
    var p, q := fields[k].prefix, fields[w].prefix;
    if EndOn(lines[j], p) == EndOn(lines[j], q) {
      EndTogether(lines[j], p, q);
      assert false;
    }
    NoNumberBetween(lines[j], p, q, Decimal(fields[w].value));
  }

  /** Every count reads back exactly when the fields have homes that keep all of them. */
  lemma CountsReadBackExactlyWhen(text: string, fields: seq<Field>)
    requires ArePlain(fields) && NoneEnds(fields)
    ensures CountsReadBack(text, fields) <==> exists homes :: AllKept(Split(text, '\n'), fields, homes)
  {
    hide Split, HaveHomes, Plain, NoneEnds, RewriteAll, ReadCount, Kept, AreLines, LinesAfter;
    var lines, n := Split(text, '\n'), |fields|;
    assert fields[..n] == fields;
    SplitIsLines(text);
    if CountsReadBack(text, fields) {
      var homes := HomesFound(lines, fields, n);
      RewrittenAtHome(lines, fields, homes, n);
      forall k | 0 <= k < n
        ensures Kept(lines, fields, homes, n, k)
      {
        ReadMeansKept(lines, fields, homes, n, k);
      }
      assert AllKept(lines, fields, homes);
    }
    if homes :| AllKept(lines, fields, homes) {
      HomesInRange(lines, fields, homes, n);
      RewrittenAtHome(lines, fields, homes, n);
      forall k | 0 <= k < n
        ensures ReadCount(RewriteAll(text, fields).value, fields[k].prefix) == Some(Decimal(fields[k].value))
      {
        KeptReads(lines, fields, homes, n, k);
      }
    }
  }

  lemma SplitIsLines(text: string)
    ensures AreLines(Split(text, '\n')) && Join(Split(text, '\n'), "\n") == text
  {}

  // ---------- the nine prefixes ----------

  /** A dash and a blank start the text and stand nowhere else in it. */
  predicate Bullet(s: string) {
    |s| > 8 && s[0] == '-' && s[1] == ' ' && forall i :: 0 < i < |s| - 1 ==> s[i] != '-' || s[i + 1] != ' '
  }

  lemma BulletsEndTogether(p: string, q: string)
    requires Bullet(p) && Bullet(q) && EndsWith(p, q)
    ensures p == q
  {
    var i := |p| - |q|;
    assert p[i] == p[i..][0] && p[i + 1] == p[i..][1];
  }

  /** What tells the prefixes apart: their length and their ninth character. */
  function Mark(p: string): (nat, char)
    requires Bullet(p)
  {
    (|p|, p[8])
  }

  predicate Marked(p: string, n: nat, c: char) {
    Bullet(p) && Mark(p) == (n, c)
  }

  lemma ClaimMarks()
    ensures Marked("- Claims: ", 10, ':') && Marked("- Fixture-pinned claims: ", 25, 'e')
    ensures Marked("- Dogfood-measured claims: ", 27, 'd')
  {}

  lemma CalibrationMarks()
    ensures Marked("- Labeled-calibrated claims: ", 29, 'd') && Marked("- Policy-eligible claims: ", 26, '-')
    ensures Marked("- Calibration cases: ", 21, 'a')
  {}

  lemma LabelMarks()
    ensures Marked("- Label ledgers: ", 17, 'l') && Marked("- Label samples: ", 17, 's')
    ensures Marked("- Labeled reports: ", 19, 'd')
  {}

  lemma ReportPrefixesNoneEnds(s: Stats)
    ensures NoneEnds(ReportFields(s))
  {
    hide Bullet, EndsWith;
    ClaimMarks();
    CalibrationMarks();
    LabelMarks();
    var fields := ReportFields(s);
    forall k, k' | 0 <= k < |fields| && 0 <= k' < |fields| && k != k'
      ensures !EndsWith(fields[k].prefix, fields[k'].prefix)
    {
      assert Bullet(fields[k].prefix) && Bullet(fields[k'].prefix);
      assert Mark(fields[k].prefix) != Mark(fields[k'].prefix);
      if EndsWith(fields[k].prefix, fields[k'].prefix) {
        BulletsEndTogether(fields[k].prefix, fields[k'].prefix);
      }
    }
  }

  /** Every text and every nine counts: the report is brought up to date in place exactly
    * when the nine prefixes first occur on nine lines. */
  lemma ReportInPlaceExactlyWhen(text: string, s: Stats)
    ensures CountsInPlace(text, ReportFields(s)) <==> OnDistinctLines(Split(text, '\n'), ReportFields(s))
  {
    hide ReportFields, NoneEnds, ArePlain, CountsInPlace, OnDistinctLines;
    ReportPrefixesArePlain(s);
    ReportPrefixesNoneEnds(s);
    CountsInPlaceExactlyWhen(text, ReportFields(s));
  }

  /** And all nine counts read back exactly when the nine fields have homes that keep them. */
  lemma ReportReadsBackExactlyWhen(text: string, s: Stats)
    ensures CountsReadBack(text, ReportFields(s)) <==> exists homes :: AllKept(Split(text, '\n'), ReportFields(s), homes)
  {
    hide ReportFields, NoneEnds, ArePlain, CountsReadBack, AllKept, Split;
    ReportPrefixesArePlain(s);
    ReportPrefixesNoneEnds(s);
    CountsReadBackExactlyWhen(text, ReportFields(s));
  }
}
