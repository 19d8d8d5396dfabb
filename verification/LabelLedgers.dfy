/** Ownership, coverage and counts across calibration label ledgers:
  * xtask/src/accuracy_labels.rs. */
module LabelLedgers {
  import opened Wrappers
  import opened Text
  import opened Lists

  // ---------- decoded inputs ----------

  /** A row of the policy's claim list. */
  datatype ClaimRow = ClaimRow(id: string, fixtures: seq<string>, labelLedgers: seq<string>)

  datatype Claim = Claim(fixtures: set<string>, labelLedgers: set<string>)

  datatype FixtureCase = FixtureCase(kind: string, expectedCards: nat)

  /** A labelled sample; fieldsOk stands for the checks of its remaining single fields. */
  datatype Sample = Sample(
    id: string, fixture: string, kind: string, expectedCards: nat, operationFamily: string, hazard: string,
    obligationKey: string, contractState: Option<string>, dischargeState: string, routeKinds: seq<string>, fieldsOk: bool)

  /** A ledger file; headerOk stands for the checks of its header other than the claim id. */
  datatype Ledger = Ledger(claimId: string, headerOk: bool, samples: seq<Sample>)

  datatype Error =
    | DuplicateFixture(fixture: string)
    | BadLedgerPath(ledger: string)
    | DuplicateLedger(ledger: string)
    | SharedLedger(ledger: string, previous: string, id: string)
    | DuplicateClaim(id: string)
    | NoLedgers
    | UnreferencedLedger(ledger: string)
    | MissingLedger(ledger: string)
    | UnreadableLedger(ledger: string)
    | BadLedger(ledger: string)
    | DuplicateSample(key: string)
    | UnsampledFixtures(fixtures: set<string>)
    | UndocumentedFixture

  // ---------- the policy's claims ----------

  predicate IsLedgerPath(path: string) {
    && StartsWith(path, "docs/accuracy/labels/") && EndsWith(path, ".toml")
    && Find(path, "\\").None? && Find(path, "..").None?
  }

  ghost predicate RowOk(row: ClaimRow) {
    NoDup(row.fixtures) && NoDup(row.labelLedgers) && forall i :: 0 <= i < |row.labelLedgers| ==> IsLedgerPath(row.labelLedgers[i])
  }

  /** All ledgers that the rows reference. */
  function Referenced(rows: seq<ClaimRow>): set<string> {
    if rows == [] then {}
    else Referenced(rows[..|rows| - 1]) + Elements(rows[|rows| - 1].labelLedgers)
  }

  function ClaimOf(row: ClaimRow): Claim {
    Claim(Elements(row.fixtures), Elements(row.labelLedgers))
  }

  function ClaimsOf(rows: seq<ClaimRow>): map<string, Claim> {
    if rows == [] then map[]
    else ClaimsOf(rows[..|rows| - 1])[rows[|rows| - 1].id := ClaimOf(rows[|rows| - 1])]
  }

  ghost predicate RowsApart(a: ClaimRow, b: ClaimRow) {
    a.id != b.id && Elements(a.labelLedgers) !! Elements(b.labelLedgers)
  }

  /** Every row is sound, claim ids do not repeat, and no ledger has two owners. */
  ghost predicate PolicyOk(rows: seq<ClaimRow>) {
    (forall i :: 0 <= i < |rows| ==> RowOk(rows[i])) &&
    forall i, j :: 0 <= i < j < |rows| ==> RowsApart(rows[i], rows[j])
  }

  lemma {:induction false} ReferencedMeans(rows: seq<ClaimRow>, ledger: string)
    ensures ledger in Referenced(rows) <==> exists i :: 0 <= i < |rows| && ledger in Elements(rows[i].labelLedgers)
  {
    hide Elements;
    if rows != [] {
      var n := |rows| - 1;
      ReferencedMeans(rows[..n], ledger);
      assert forall i :: 0 <= i < n ==> rows[..n][i] == rows[i];
    }
  }

  lemma {:induction false} ClaimsMean(rows: seq<ClaimRow>, id: string)
    ensures id in ClaimsOf(rows) <==> exists i :: 0 <= i < |rows| && rows[i].id == id
  {
    hide ClaimOf;
    if rows != [] {
      var n := |rows| - 1;
      ClaimsMean(rows[..n], id);
      assert forall i :: 0 <= i < n ==> rows[..n][i] == rows[i];
    }
  }

  lemma {:induction false} ClaimOfRow(rows: seq<ClaimRow>, i: nat)
    requires i < |rows| && PolicyOk(rows)
    ensures rows[i].id in ClaimsOf(rows) && ClaimsOf(rows)[rows[i].id] == ClaimOf(rows[i])
    decreases |rows|
  {
    hide ClaimOf, RowOk, Elements;
    var n := |rows| - 1;
    if i < n {
      assert PolicyOk(rows[..n]);
      ClaimOfRow(rows[..n], i);
    }
  }

  lemma PolicyNext(rows: seq<ClaimRow>, i: nat)
    requires i < |rows| && PolicyOk(rows[..i])
    ensures PolicyOk(rows[..i + 1]) <==>
      RowOk(rows[i]) && rows[i].id !in ClaimsOf(rows[..i]) && Elements(rows[i].labelLedgers) !! Referenced(rows[..i])
  {
    hide RowOk, RowsApart, ClaimsOf, Referenced, Elements;
    assert forall j :: 0 <= j < i ==> rows[..i][j] == rows[j] == rows[..i + 1][j];
    assert rows[..i + 1][i] == rows[i];
    ApartFromAll(rows[..i], rows[i]);
  }

  lemma ApartFromAll(front: seq<ClaimRow>, row: ClaimRow)
    ensures (forall j :: 0 <= j < |front| ==> RowsApart(front[j], row)) <==>
      row.id !in ClaimsOf(front) && Elements(row.labelLedgers) !! Referenced(front)
  {
    hide Elements, ClaimsOf, Referenced;
    ClaimsMean(front, row.id);
    forall ledger
      ensures ledger in Referenced(front) <==> exists j :: 0 <= j < |front| && ledger in Elements(front[j].labelLedgers)
    {
      ReferencedMeans(front, ledger);
    }
  }

  lemma PolicyPrefix(rows: seq<ClaimRow>, n: nat)
    requires n <= |rows| && PolicyOk(rows)
    ensures PolicyOk(rows[..n])
  {
    hide RowOk, Elements;
  }

  lemma RowFails(rows: seq<ClaimRow>, i: nat)
    requires i < |rows| && PolicyOk(rows[..i])
    requires !RowOk(rows[i]) || rows[i].id in ClaimsOf(rows[..i]) || !(Elements(rows[i].labelLedgers) !! Referenced(rows[..i]))
    ensures !PolicyOk(rows)
  {
    hide PolicyOk, RowOk, Elements, Referenced, ClaimsOf;
    PolicyNext(rows, i);
    if PolicyOk(rows) {
      PolicyPrefix(rows, i + 1);
      assert false;
    }
  }

  lemma RowAdded(rows: seq<ClaimRow>, i: nat)
    requires i < |rows|
    ensures Referenced(rows[..i + 1]) == Referenced(rows[..i]) + Elements(rows[i].labelLedgers)
    ensures ClaimsOf(rows[..i + 1]) == ClaimsOf(rows[..i])[rows[i].id := ClaimOf(rows[i])]
  {
    hide ClaimOf, Elements;
    assert rows[..i + 1][..i] == rows[..i];
  }

  lemma NoRows(rows: seq<ClaimRow>)
    ensures rows[..0] == [] && PolicyOk([]) && ClaimsOf([]) == map[] && Referenced([]) == {} && rows[..|rows|] == rows
  {}

  lemma BadRow(row: ClaimRow, k: nat)
    requires k < |row.labelLedgers| && !IsLedgerPath(row.labelLedgers[k])
    ensures !RowOk(row)
  {
    hide IsLedgerPath;
  }

  lemma RepeatedInRow(row: ClaimRow)
    requires !NoDup(row.fixtures) || !NoDup(row.labelLedgers)
    ensures !RowOk(row)
  {
    hide IsLedgerPath, NoDup;
  }

  lemma GoodRow(row: ClaimRow)
    requires NoDup(row.fixtures) && NoDup(row.labelLedgers)
    requires forall i :: 0 <= i < |row.labelLedgers| ==> IsLedgerPath(row.labelLedgers[i])
    ensures RowOk(row)
  {
    hide IsLedgerPath, NoDup;
  }

  lemma OwnedTwice(row: ClaimRow, k: nat, referenced: set<string>)
    requires k < |row.labelLedgers| && row.labelLedgers[k] in referenced
    ensures !(Elements(row.labelLedgers) !! referenced)
  {
    assert row.labelLedgers[k] in Elements(row.labelLedgers);
  }

  method PolicyClaims(rows: seq<ClaimRow>) returns (r: Result<map<string, Claim>, Error>)
    ensures r.Ok? <==> PolicyOk(rows)
    ensures r.Ok? ==> r.value == ClaimsOf(rows)
  {
    hide PolicyOk, RowOk, Elements, Referenced, ClaimsOf, IsLedgerPath, NoDup;
    var result: map<string, Claim> := map[];
    var ledgerOwners: map<string, string> := map[];
    NoRows(rows);
    for i := 0 to |rows|
      invariant PolicyOk(rows[..i]) && result == ClaimsOf(rows[..i]) && ledgerOwners.Keys == Referenced(rows[..i])
    {
      var row := rows[i];
      var fixtures: set<string> := {};
      InsertEnds(row.fixtures);
      for k := 0 to |row.fixtures|
        invariant fixtures == Elements(row.fixtures[..k]) && NoDup(row.fixtures[..k])
      {
        InsertNext(row.fixtures, k);
        if row.fixtures[k] in fixtures {
          RepeatedInRow(row);
          RowFails(rows, i);
          return Err(DuplicateFixture(row.fixtures[k]));
        }
        fixtures := fixtures + {row.fixtures[k]};
      }
      var ledgers: set<string> := {};
      InsertEnds(row.labelLedgers);
      for k := 0 to |row.labelLedgers|
        invariant ledgers == Elements(row.labelLedgers[..k]) && NoDup(row.labelLedgers[..k])
        invariant forall j :: 0 <= j < k ==> IsLedgerPath(row.labelLedgers[j])
        invariant ledgerOwners.Keys == Referenced(rows[..i]) + ledgers && ledgers !! Referenced(rows[..i])
      {
        var ledger := row.labelLedgers[k];
        if !IsLedgerPath(ledger) {
          BadRow(row, k);
          RowFails(rows, i);
          return Err(BadLedgerPath(ledger));
        }
        InsertNext(row.labelLedgers, k);
        if ledger in ledgers {
          RepeatedInRow(row);
          RowFails(rows, i);
          return Err(DuplicateLedger(ledger));
        }
        ledgers := ledgers + {ledger};
        if ledger in ledgerOwners {
          OwnedTwice(row, k, Referenced(rows[..i]));
          RowFails(rows, i);
          return Err(SharedLedger(ledger, ledgerOwners[ledger], row.id));
        }
        ledgerOwners := ledgerOwners[ledger := row.id];
      }
      GoodRow(row);
      if row.id in result {
        RowFails(rows, i);
        return Err(DuplicateClaim(row.id));
      }
      PolicyNext(rows, i);
      RowAdded(rows, i);
      result := result[row.id := Claim(fixtures, ledgers)];
    }
    r := Ok(result);
  }

  // ---------- one ledger ----------

  /** What a sample claims about its fixture; no two samples of a claim may claim the same. */
  function SampleKey(s: Sample): string {
    if s.expectedCards == 0 then s.fixture + "|zero-card"
    else
      s.fixture + "|" + s.operationFamily + "|" + s.hazard + "|" + s.obligationKey
      + "|contract=" + (if s.contractState.Some? then s.contractState.value else "")
      + "|discharge=" + s.dischargeState + "|routes=" + Join(s.routeKinds, ",")
  }

  function Fixtures(l: Ledger): set<string> {
    Elements(Map((s: Sample) => s.fixture, l.samples))
  }

  function Keys(l: Ledger): set<string> {
    Elements(SampleKeys(l))
  }

  function SampleKeys(l: Ledger): (r: seq<string>)
    ensures |r| == |l.samples|
  {
    Map(SampleKey, l.samples)
  }

  function SampleIds(l: Ledger): seq<string> {
    Map((s: Sample) => s.id, l.samples)
  }

  predicate SampleOk(s: Sample, claim: Claim, cases: map<string, FixtureCase>) {
    && s.fixture in claim.fixtures && s.fixture in cases
    && s.kind == cases[s.fixture].kind && s.expectedCards == cases[s.fixture].expectedCards
    && s.fieldsOk
  }

  ghost predicate LedgerOk(l: Ledger, claimId: string, claim: Claim, cases: map<string, FixtureCase>) {
    && l.claimId == claimId && l.headerOk && l.samples != []
    && NoDup(SampleIds(l)) && NoDup(SampleKeys(l))
    && forall i :: 0 <= i < |l.samples| ==> SampleOk(l.samples[i], claim, cases)
  }

  datatype LedgerStats = LedgerStats(sampleCount: nat, fixtures: set<string>, sampleKeys: set<string>)

  method ValidateLabelLedger(ledger: string, l: Ledger, claimId: string, claim: Claim, cases: map<string, FixtureCase>)
    returns (r: Result<LedgerStats, Error>)
    ensures r.Ok? <==> LedgerOk(l, claimId, claim, cases)
    ensures r.Ok? ==> r.value == LedgerStats(|l.samples|, Fixtures(l), Keys(l))
  {
    hide NoDup, Elements, SampleOk, SampleKey, Map;
    if l.claimId != claimId || !l.headerOk || l.samples == [] {
      return Err(BadLedger(ledger));
    }
    ghost var allIds, allKeys := SampleIds(l), SampleKeys(l);
    ghost var allFixtures := Map((s: Sample) => s.fixture, l.samples);
    var ids: set<string>, fixtures: set<string>, sampleKeys: set<string> := {}, {}, {};
    InsertEnds(allIds);
    InsertEnds(allKeys);
    NoFixtures(allFixtures);
    for i := 0 to |l.samples|
      invariant ids == Elements(allIds[..i]) && NoDup(allIds[..i])
      invariant sampleKeys == Elements(allKeys[..i]) && NoDup(allKeys[..i])
      invariant fixtures == Elements(allFixtures[..i])
      invariant forall j :: 0 <= j < i ==> SampleOk(l.samples[j], claim, cases)
    {
      var sample := l.samples[i];
      InsertNext(allIds, i);
      InsertNext(allKeys, i);
      NextFixture(allFixtures, i);
      if sample.id in ids || !SampleOk(sample, claim, cases) {
        return Err(BadLedger(ledger));
      }
      ids := ids + {sample.id};
      fixtures := fixtures + {sample.fixture};
      if SampleKey(sample) in sampleKeys {
        return Err(DuplicateSample(SampleKey(sample)));
      }
      sampleKeys := sampleKeys + {SampleKey(sample)};
    }
    r := Ok(LedgerStats(|l.samples|, fixtures, sampleKeys));
  }

  lemma NoFixtures(s: seq<string>)
    ensures Elements(s[..0]) == {} && s[..|s|] == s
  {}

  lemma NextFixture(s: seq<string>, i: nat)
    requires i < |s|
    ensures Elements(s[..i + 1]) == Elements(s[..i]) + {s[i]}
  {
    assert s[..i + 1] == s[..i] + [s[i]];
  }

  // ---------- the ledgers of one claim ----------

  /** The ledger files on disk; a file that does not parse holds nothing. */
  type Files = map<string, Option<Ledger>>

  predicate Readable(path: string, files: Files) {
    path in files && files[path].Some?
  }

  function KeysIn(paths: set<string>, files: Files): set<string> {
    set p, k | p in paths && Readable(p, files) && k in Keys(files[p].value) :: k
  }

  function FixturesIn(paths: set<string>, files: Files): set<string> {
    set p, f | p in paths && Readable(p, files) && f in Fixtures(files[p].value) :: f
  }

  /** Every sample of the files, by file and position. */
  function SamplesIn(paths: set<string>, files: Files): set<(string, int)> {
    set p, i | p in paths && Readable(p, files) && 0 <= i < |files[p].value.samples| :: (p, i)
  }

  ghost predicate LedgerFits(path: string, id: string, claim: Claim, files: Files, cases: map<string, FixtureCase>) {
    Readable(path, files) && LedgerOk(files[path].value, id, claim, cases)
  }

  /** All of the paths' ledgers fit the claim, and no two of them repeat a sample. */
  ghost predicate LedgersFit(paths: set<string>, id: string, claim: Claim, files: Files, cases: map<string, FixtureCase>) {
    (forall p :: p in paths ==> LedgerFits(p, id, claim, files, cases)) &&
    forall p, q :: p in paths && q in paths && p != q && Readable(p, files) && Readable(q, files) ==>
      Keys(files[p].value) !! Keys(files[q].value)
  }

  ghost predicate ClaimOk(id: string, claim: Claim, files: Files, cases: map<string, FixtureCase>) {
    LedgersFit(claim.labelLedgers, id, claim, files, cases) && claim.fixtures <= FixturesIn(claim.labelLedgers, files)
  }

  method ExtendClaimLabelSamples(claimKeys: set<string>, ledgerKeys: set<string>) returns (r: Result<set<string>, Error>)
    ensures r.Ok? <==> claimKeys !! ledgerKeys
    ensures r.Ok? ==> r.value == claimKeys + ledgerKeys
  {
    var keys, pending := claimKeys, ledgerKeys;
    while pending != {}
      invariant pending <= ledgerKeys && keys == claimKeys + (ledgerKeys - pending)
      invariant claimKeys !! (ledgerKeys - pending)
      decreases |pending|
    {
      var key :| key in pending;
      if key in keys {
        return Err(DuplicateSample(key));
      }
      keys, pending := keys + {key}, pending - {key};
    }
    r := Ok(keys);
  }

  lemma {:induction false} DistinctCount(s: seq<string>)
    requires NoDup(s)
    ensures |Elements(s)| == |s|
  {
    if s != [] {
      var n := |s| - 1;
      assert s == s[..n] + [s[n]];
      DistinctCount(s[..n]);
      assert s[n] !in s[..n];
      assert Elements(s) == Elements(s[..n]) + {s[n]};
    }
  }

  lemma {:induction false} IndexCount(path: string, n: nat) returns (at: set<(string, int)>)
    ensures at == (set i | 0 <= i < n :: (path, i)) && |at| == n
  {
    if n == 0 {
      at := {};
    } else {
      var before := IndexCount(path, n - 1);
      at := before + {(path, n - 1)};
    }
  }

  lemma KeysGrow(paths: set<string>, p: string, files: Files)
    requires Readable(p, files)
    ensures KeysIn(paths + {p}, files) == KeysIn(paths, files) + Keys(files[p].value)
    ensures FixturesIn(paths + {p}, files) == FixturesIn(paths, files) + Fixtures(files[p].value)
  {
    hide Keys, Fixtures;
  }

  lemma SamplesGrow(paths: set<string>, p: string, files: Files)
    requires Readable(p, files) && p !in paths
    ensures |SamplesIn(paths + {p}, files)| == |SamplesIn(paths, files)| + |files[p].value.samples|
  {
    var at := IndexCount(p, |files[p].value.samples|);
    assert SamplesIn(paths + {p}, files) == SamplesIn(paths, files) + at;
    assert SamplesIn(paths, files) !! at;
  }

  /** The numbers that one claim contributes: its samples counted twice over. */
  ghost predicate Counted(count: nat, paths: set<string>, files: Files) {
    count == |KeysIn(paths, files)| == |SamplesIn(paths, files)|
  }

  lemma FitsNext(paths: set<string>, p: string, id: string, claim: Claim, files: Files, cases: map<string, FixtureCase>, count: nat)
    requires p !in paths && LedgersFit(paths, id, claim, files, cases) && Counted(count, paths, files)
    requires LedgerFits(p, id, claim, files, cases)
    ensures LedgersFit(paths + {p}, id, claim, files, cases) <==> KeysIn(paths, files) !! Keys(files[p].value)
    ensures KeysIn(paths, files) !! Keys(files[p].value) ==>
      Counted(count + |files[p].value.samples|, paths + {p}, files)
  {
    hide LedgerOk, Keys, Fixtures, KeysIn, FixturesIn, SamplesIn, LedgersFit;
    KeysGrow(paths, p, files);
    SamplesGrow(paths, p, files);
    KeyCount(files[p].value, id, claim, cases);
    FitsOneMore(paths, p, id, claim, files, cases);
  }

  lemma FitsOneMore(paths: set<string>, p: string, id: string, claim: Claim, files: Files, cases: map<string, FixtureCase>)
    requires p !in paths && LedgersFit(paths, id, claim, files, cases) && LedgerFits(p, id, claim, files, cases)
    ensures LedgersFit(paths + {p}, id, claim, files, cases) <==> KeysIn(paths, files) !! Keys(files[p].value)
  {
    hide LedgerOk, Keys, KeysIn;
    KeysApart(paths, p, files);
  }

  lemma KeysApart(paths: set<string>, p: string, files: Files)
    requires Readable(p, files) && forall q :: q in paths ==> Readable(q, files)
    ensures KeysIn(paths, files) !! Keys(files[p].value)
       <==> forall q :: q in paths && Readable(q, files) ==> Keys(files[q].value) !! Keys(files[p].value)
  {
    hide Keys;
  }

  lemma KeyCount(l: Ledger, id: string, claim: Claim, cases: map<string, FixtureCase>)
    requires LedgerOk(l, id, claim, cases)
    ensures |Keys(l)| == |l.samples|
  {
    hide Elements, SampleKey;
    DistinctCount(SampleKeys(l));
  }

  lemma FitsSome(paths: set<string>, some: set<string>, id: string, claim: Claim, files: Files, cases: map<string, FixtureCase>)
    requires some <= paths && !LedgersFit(some, id, claim, files, cases)
    ensures !LedgersFit(paths, id, claim, files, cases)
  {
    hide LedgerFits, Keys;
  }

  lemma FitsNone(id: string, claim: Claim, files: Files, cases: map<string, FixtureCase>)
    ensures LedgersFit({}, id, claim, files, cases) && Counted(0, {}, files)
    ensures KeysIn({}, files) == {} && FixturesIn({}, files) == {}
  {
    hide LedgerFits, Keys, Fixtures;
  }

  lemma OneUnfit(p: string, id: string, claim: Claim, files: Files, cases: map<string, FixtureCase>)
    requires !LedgerFits(p, id, claim, files, cases)
    ensures !LedgersFit({p}, id, claim, files, cases)
  {
    hide LedgerFits, Keys;
  }

  lemma NothingLeft(a: set<string>, b: set<string>)
    ensures a - b == {} <==> a <= b
  {
    assert forall x :: x in a && x !in b ==> x in a - b;
  }

  /** The loop over one claim's ledgers, in any order. */
  method CheckClaimLedgers(id: string, claim: Claim, files: Files, cases: map<string, FixtureCase>) returns (r: Result<nat, Error>)
    ensures r.Ok? <==> ClaimOk(id, claim, files, cases)
    ensures r.Ok? ==> Counted(r.value, claim.labelLedgers, files)
  {
    hide LedgersFit, LedgerOk, Counted, KeysIn, FixturesIn, Keys, Fixtures;
    var fixtures: set<string>, keys: set<string>, sampleCount: nat := {}, {}, 0;
    var pending := claim.labelLedgers;
    FitsNone(id, claim, files, cases);
    assert claim.labelLedgers - pending == {};
    while pending != {}
      invariant pending <= claim.labelLedgers
      invariant LedgersFit(claim.labelLedgers - pending, id, claim, files, cases)
      invariant Counted(sampleCount, claim.labelLedgers - pending, files)
      invariant keys == KeysIn(claim.labelLedgers - pending, files)
      invariant fixtures == FixturesIn(claim.labelLedgers - pending, files)
      decreases |pending|
    {
      var ledger :| ledger in pending;
      ghost var done := claim.labelLedgers - pending;
      if ledger !in files || files[ledger].None? {
        OneUnfit(ledger, id, claim, files, cases);
        FitsSome(claim.labelLedgers, {ledger}, id, claim, files, cases);
        return Err(if ledger in files then UnreadableLedger(ledger) else MissingLedger(ledger));
      }
      var checked := ValidateLabelLedger(ledger, files[ledger].value, id, claim, cases);
      if checked.Err? {
        OneUnfit(ledger, id, claim, files, cases);
        FitsSome(claim.labelLedgers, {ledger}, id, claim, files, cases);
        return Err(checked.error);
      }
      FitsNext(done, ledger, id, claim, files, cases, sampleCount);
      KeysGrow(done, ledger, files);
      sampleCount := sampleCount + checked.value.sampleCount;
      fixtures := fixtures + checked.value.fixtures;
      var extended := ExtendClaimLabelSamples(keys, checked.value.sampleKeys);
      if extended.Err? {
        FitsSome(claim.labelLedgers, done + {ledger}, id, claim, files, cases);
        return Err(extended.error);
      }
      keys := extended.value;
      assert claim.labelLedgers - (pending - {ledger}) == done + {ledger};
      pending := pending - {ledger};
    }
    assert claim.labelLedgers - pending == claim.labelLedgers;
    NothingLeft(claim.fixtures, fixtures);
    if claim.fixtures - fixtures != {} {
      return Err(UnsampledFixtures(claim.fixtures - fixtures));
    }
    r := Ok(sampleCount);
  }

  // ---------- all claims ----------

  /** The loop over the claims' ledgers leaves a sample key to each claim that owns it. */
  function ClaimKeys(ids: set<string>, claims: map<string, Claim>, files: Files): set<(string, string)> {
    set id, k | id in ids && id in claims && k in KeysIn(claims[id].labelLedgers, files) :: (id, k)
  }

  function LedgersOf(ids: set<string>, claims: map<string, Claim>): set<string> {
    set id, p | id in ids && id in claims && p in claims[id].labelLedgers :: p
  }

  ghost predicate OneOwner(claims: map<string, Claim>) {
    forall id, id' :: id in claims && id' in claims && id != id' ==> claims[id].labelLedgers !! claims[id'].labelLedgers
  }

  ghost predicate Total(count: nat, ids: set<string>, claims: map<string, Claim>, files: Files) {
    count == |ClaimKeys(ids, claims, files)| == |SamplesIn(LedgersOf(ids, claims), files)|
  }

  /** Both documents mention every sampled fixture. */
  predicate Documented(paths: set<string>, files: Files, supportTiers: string, operationRegistry: string) {
    forall f :: f in FixturesIn(paths, files) ==> Find(supportTiers, f).Some? && Find(operationRegistry, f).Some?
  }

  ghost predicate Acceptable(
    rows: seq<ClaimRow>, files: Files, cases: map<string, FixtureCase>, supportTiers: string, operationRegistry: string)
  {
    && PolicyOk(rows)
    && files.Keys != {} && files.Keys <= Referenced(rows)
    && (forall id :: id in ClaimsOf(rows) ==> ClaimOk(id, ClaimsOf(rows)[id], files, cases))
    && Documented(Referenced(rows), files, supportTiers, operationRegistry)
  }

  lemma {:induction false} TagCount(id: string, keys: set<string>) returns (tagged: set<(string, string)>)
    ensures tagged == (set k | k in keys :: (id, k)) && |tagged| == |keys|
    decreases |keys|
  {
    if keys == {} {
      tagged := {};
    } else {
      var k :| k in keys;
      var before := TagCount(id, keys - {k});
      tagged := before + {(id, k)};
      assert keys == (keys - {k}) + {k};
    }
  }

  lemma TotalNext(count: nat, ids: set<string>, id: string, claims: map<string, Claim>, files: Files, more: nat)
    requires OneOwner(claims) && ids <= claims.Keys && id in claims && id !in ids
    requires Total(count, ids, claims, files) && Counted(more, claims[id].labelLedgers, files)
    ensures Total(count + more, ids + {id}, claims, files)
    ensures LedgersOf(ids + {id}, claims) == LedgersOf(ids, claims) + claims[id].labelLedgers
  {
    hide KeysIn, SamplesIn, ClaimKeys, LedgersOf;
    ClaimKeysNext(ids, id, claims, files);
    LedgersNext(ids, id, claims);
    SamplesApart(LedgersOf(ids, claims), claims[id].labelLedgers, files);
  }

  lemma ClaimKeysNext(ids: set<string>, id: string, claims: map<string, Claim>, files: Files)
    requires id in claims && id !in ids
    ensures |ClaimKeys(ids + {id}, claims, files)|
         == |ClaimKeys(ids, claims, files)| + |KeysIn(claims[id].labelLedgers, files)|
  {
    hide KeysIn;
    var tagged := TagCount(id, KeysIn(claims[id].labelLedgers, files));
    assert ClaimKeys(ids + {id}, claims, files) == ClaimKeys(ids, claims, files) + tagged;
    assert ClaimKeys(ids, claims, files) !! tagged;
  }

  lemma LedgersNext(ids: set<string>, id: string, claims: map<string, Claim>)
    requires OneOwner(claims) && ids <= claims.Keys && id in claims && id !in ids
    ensures LedgersOf(ids + {id}, claims) == LedgersOf(ids, claims) + claims[id].labelLedgers
    ensures LedgersOf(ids, claims) !! claims[id].labelLedgers
  {}

  lemma SamplesApart(paths: set<string>, more: set<string>, files: Files)
    requires paths !! more
    ensures |SamplesIn(paths + more, files)| == |SamplesIn(paths, files)| + |SamplesIn(more, files)|
  {
    assert SamplesIn(paths + more, files) == SamplesIn(paths, files) + SamplesIn(more, files);
    assert SamplesIn(paths, files) !! SamplesIn(more, files);
  }

  lemma OwnersOnce(rows: seq<ClaimRow>)
    requires PolicyOk(rows)
    ensures OneOwner(ClaimsOf(rows)) && LedgersOf(ClaimsOf(rows).Keys, ClaimsOf(rows)) == Referenced(rows)
  {
    hide RowOk, Elements, ClaimsOf, Referenced;
    var claims := ClaimsOf(rows);
    forall id | id in claims
      ensures exists i :: 0 <= i < |rows| && rows[i].id == id && claims[id] == ClaimOf(rows[i])
    {
      ClaimsMean(rows, id);
      var i :| 0 <= i < |rows| && rows[i].id == id;
      ClaimOfRow(rows, i);
    }
    forall p
      ensures p in LedgersOf(claims.Keys, claims) <==> p in Referenced(rows)
    {
      ReferencedMeans(rows, p);
      if p in Referenced(rows) {
        var i :| 0 <= i < |rows| && p in Elements(rows[i].labelLedgers);
        ClaimOfRow(rows, i);
      }
    }
  }

  lemma TotalNone(claims: map<string, Claim>, files: Files)
    ensures Total(0, {}, claims, files) && LedgersOf({}, claims) == {}
  {}

  /** Accepts exactly the acceptable policies; the count it returns is at once the number of
    * distinct sample keys per claim and the number of samples in the files on disk. */
  method CheckAccuracyLabelLedgers(
    rows: seq<ClaimRow>, files: Files, cases: map<string, FixtureCase>, supportTiers: string, operationRegistry: string)
    returns (r: Result<nat, Error>)
    ensures r.Ok? <==> Acceptable(rows, files, cases, supportTiers, operationRegistry)
    ensures r.Ok? ==> r.value == |ClaimKeys(ClaimsOf(rows).Keys, ClaimsOf(rows), files)|
    ensures r.Ok? ==> r.value == |SamplesIn(files.Keys, files)|
  {
    hide PolicyOk, ClaimOk, ClaimsOf, Referenced, Counted, LedgersOf, ClaimKeys, SamplesIn, FixturesIn, OneOwner;
    var policy := PolicyClaims(rows);
    if policy.Err? {
      return Err(policy.error);
    }
    var claims := policy.value;
    OwnersOnce(rows);
    var referenced := LedgersOf(claims.Keys, claims);
    if files.Keys == {} {
      return Err(NoLedgers);
    }
    if ledger :| ledger in files.Keys && ledger !in referenced {
      return Err(UnreferencedLedger(ledger));
    }
    var sampleCount, pending := 0, claims.Keys;
    TotalNone(claims, files);
    assert claims.Keys - pending == {};
    while pending != {}
      invariant pending <= claims.Keys
      invariant forall id :: id in claims.Keys - pending ==> ClaimOk(id, claims[id], files, cases)
      invariant Total(sampleCount, claims.Keys - pending, claims, files)
      decreases |pending|
    {
      var id :| id in pending;
      ghost var done := claims.Keys - pending;
      var checked := CheckClaimLedgers(id, claims[id], files, cases);
      if checked.Err? {
        return Err(checked.error);
      }
      TotalNext(sampleCount, done, id, claims, files, checked.value);
      sampleCount := sampleCount + checked.value;
      assert claims.Keys - (pending - {id}) == done + {id};
      pending := pending - {id};
    }
    assert claims.Keys - pending == claims.Keys;
    if !Documented(referenced, files, supportTiers, operationRegistry) {
      return Err(UndocumentedFixture);
    }
    AllOnDisk(claims, files, cases);
    assert referenced == files.Keys;
    r := Ok(sampleCount);
  }

  lemma AllOnDisk(claims: map<string, Claim>, files: Files, cases: map<string, FixtureCase>)
    requires forall id :: id in claims ==> ClaimOk(id, claims[id], files, cases)
    ensures LedgersOf(claims.Keys, claims) <= files.Keys
  {
    hide LedgerOk, Keys, FixturesIn;
  }

  /** What acceptance accounts for: the files on disk are exactly the claims' ledgers, each of
    * them is owned by exactly one claim, and each claim's samples use exactly its fixtures. */
  lemma AcceptedLedgersAddUp(
    rows: seq<ClaimRow>, files: Files, cases: map<string, FixtureCase>, supportTiers: string, operationRegistry: string)
    requires Acceptable(rows, files, cases, supportTiers, operationRegistry)
    ensures files.Keys == Referenced(rows)
    ensures forall p :: p in files ==> exists i :: IsOwner(rows, i, p) && forall j :: IsOwner(rows, j, p) ==> j == i
    ensures forall i :: 0 <= i < |rows| ==> FixturesIn(Elements(rows[i].labelLedgers), files) == Elements(rows[i].fixtures)
    ensures forall p :: p in files ==> files[p].Some? && files[p].value.samples != []
    ensures forall p :: p in files ==> SamplesDescribe(files[p].value.samples, cases)
    ensures forall p, f :: p in files && f in Fixtures(files[p].value) ==>
      Find(supportTiers, f).Some? && Find(operationRegistry, f).Some?
  {
    hide ClaimsOf, Referenced, FixturesIn, PolicyOk, ClaimOk, Elements, IsOwner, SamplesDescribe, Find, Fixtures;
    var claims := ClaimsOf(rows);
    OwnersOnce(rows);
    AllOnDisk(claims, files, cases);
    forall p | p in files
      ensures exists i :: IsOwner(rows, i, p) && forall j :: IsOwner(rows, j, p) ==> j == i
      ensures files[p].Some? && files[p].value.samples != [] && SamplesDescribe(files[p].value.samples, cases)
    {
      var i := TheOwner(rows, p);
      ClaimOfRow(rows, i);
      OwnedIsSound(p, rows[i].id, claims[rows[i].id], files, cases);
    }
    forall p, f | p in files && f in Fixtures(files[p].value)
      ensures Find(supportTiers, f).Some? && Find(operationRegistry, f).Some?
    {
      SampledFixture(Referenced(rows), files, p, f);
    }
    forall i | 0 <= i < |rows|
      ensures FixturesIn(Elements(rows[i].labelLedgers), files) == Elements(rows[i].fixtures)
    {
      ClaimOfRow(rows, i);
      OnlyDeclared(rows[i].id, claims[rows[i].id], files, cases);
    }
  }

  lemma TheOwner(rows: seq<ClaimRow>, p: string) returns (i: nat)
    requires PolicyOk(rows) && p in Referenced(rows)
    ensures i < |rows| && p in ClaimOf(rows[i]).labelLedgers
    ensures IsOwner(rows, i, p) && forall j :: IsOwner(rows, j, p) ==> j == i
  {
    hide RowOk, Elements, Referenced;
    ReferencedMeans(rows, p);
    i :| 0 <= i < |rows| && p in Elements(rows[i].labelLedgers);
  }

  lemma OwnedIsSound(p: string, id: string, claim: Claim, files: Files, cases: map<string, FixtureCase>)
    requires ClaimOk(id, claim, files, cases) && p in claim.labelLedgers
    ensures p in files && files[p].Some? && files[p].value.samples != []
    ensures SamplesDescribe(files[p].value.samples, cases)
  {
    hide Keys, FixturesIn;
    assert LedgerFits(p, id, claim, files, cases);
  }

  lemma SampledFixture(paths: set<string>, files: Files, p: string, f: string)
    requires p in paths && p in files && files[p].Some? && f in Fixtures(files[p].value)
    ensures f in FixturesIn(paths, files)
  {
    hide Fixtures;
    assert Readable(p, files);
  }

  /** Each sample is sound and describes the calibration case of its fixture. */
  predicate SamplesDescribe(samples: seq<Sample>, cases: map<string, FixtureCase>) {
    forall i :: 0 <= i < |samples| ==>
      samples[i].fixture in cases && samples[i].fieldsOk
      && cases[samples[i].fixture] == FixtureCase(samples[i].kind, samples[i].expectedCards)
  }

  predicate IsOwner(rows: seq<ClaimRow>, i: int, path: string) {
    0 <= i < |rows| && path in Elements(rows[i].labelLedgers)
  }

  /** A claim's ledgers sample no fixture that the claim does not declare. */
  lemma OnlyDeclared(id: string, claim: Claim, files: Files, cases: map<string, FixtureCase>)
    requires ClaimOk(id, claim, files, cases)
    ensures FixturesIn(claim.labelLedgers, files) == claim.fixtures
  {
    hide Keys, SampleKey;
    forall f | f in FixturesIn(claim.labelLedgers, files)
      ensures f in claim.fixtures
    {
      var p :| p in claim.labelLedgers && Readable(p, files) && f in Fixtures(files[p].value);
      var l := files[p].value;
      assert LedgerFits(p, id, claim, files, cases);
      var i :| 0 <= i < |l.samples| && l.samples[i].fixture == f;
      assert SampleOk(l.samples[i], claim, cases);
    }
  }

  // ---------- what a sample key and a ledger path are ----------

  /** The parts of a key, which bars separate. */
  function KeyParts(s: Sample): seq<string> {
    if s.expectedCards == 0 then [s.fixture, "zero-card"]
    else
      [s.fixture, s.operationFamily, s.hazard, s.obligationKey,
       "contract=" + (if s.contractState.Some? then s.contractState.value else ""),
       "discharge=" + s.dischargeState, "routes=" + Join(s.routeKinds, ",")]
  }

  predicate NoBar(s: string) {
    '|' !in s
  }

  /** The sample's texts hold none of the separators. */
  predicate IsSeparable(s: Sample) {
    && NoBar(s.fixture) && NoBar(s.operationFamily) && NoBar(s.hazard) && NoBar(s.obligationKey) && NoBar(s.dischargeState)
    && (s.contractState.Some? ==> NoBar(s.contractState.value))
    && forall i :: 0 <= i < |s.routeKinds| ==> NoBar(s.routeKinds[i]) && ',' !in s.routeKinds[i]
  }

  lemma {:induction false} JoinedHasNoBar(parts: seq<string>)
    requires forall i :: 0 <= i < |parts| ==> NoBar(parts[i])
    ensures NoBar(Join(parts, ","))
  {
    if |parts| > 1 {
      JoinedHasNoBar(parts[1..]);
      assert '|' !in ",";
    }
  }

  lemma BarAppend(a: string, b: string)
    ensures NoBar(a + b) <==> NoBar(a) && NoBar(b)
  {}

  lemma PartsHaveNoBar(s: Sample)
    requires IsSeparable(s)
    ensures forall i :: 0 <= i < |KeyParts(s)| ==> NoBar(KeyParts(s)[i])
  {
    hide Join, NoBar;
    JoinedHasNoBar(s.routeKinds);
    LabelsHaveNoBar();
    BarAppend("contract=", if s.contractState.Some? then s.contractState.value else "");
    BarAppend("discharge=", s.dischargeState);
    BarAppend("routes=", Join(s.routeKinds, ","));
  }

  lemma LabelsHaveNoBar()
    ensures NoBar("zero-card") && NoBar("contract=") && NoBar("discharge=") && NoBar("routes=") && NoBar("")
  {}

  lemma {:induction false} JoinMore(parts: seq<string>, last: string)
    requires parts != []
    ensures Join(parts + [last], "|") == Join(parts, "|") + "|" + last
  {
    var more := parts + [last];
    assert more[1..] == parts[1..] + [last];
    if |parts| == 1 {
      assert more[1..] == [last];
    } else {
      JoinMore(parts[1..], last);
      assert parts[0] + "|" + (Join(parts[1..], "|") + "|" + last) == (parts[0] + "|" + Join(parts[1..], "|")) + "|" + last;
    }
  }

  lemma JoinFour(a: string, b: string, c: string, d: string)
    ensures Join([a, b], "|") == a + "|" + b
    ensures Join([a, b, c, d], "|") == a + "|" + b + "|" + c + "|" + d
  {
    assert [a] + [b] == [a, b] && [a, b] + [c] == [a, b, c] && [a, b, c] + [d] == [a, b, c, d];
    assert Join([a], "|") == a;
    hide Join;
    JoinMore([a], b);
    JoinMore([a, b], c);
    JoinMore([a, b, c], d);
  }

  /** A labelled part behind a bar. */
  lemma Labelled(front: string, bar: string, part: string, value: string)
    requires bar == "|" + part
    ensures front + bar + value == front + "|" + (part + value)
  {}

  lemma Bars()
    ensures "|contract=" == "|" + "contract=" && "|discharge=" == "|" + "discharge=" && "|routes=" == "|" + "routes="
    ensures "|zero-card" == "|" + "zero-card"
  {}

  lemma KeyIsJoined(s: Sample)
    ensures SampleKey(s) == Join(KeyParts(s), "|")
  {
    hide Join;
    Bars();
    if s.expectedCards == 0 {
      JoinFour(s.fixture, "zero-card", "", "");
      Labelled(s.fixture, "|zero-card", "zero-card", "");
      assert s.fixture + "|zero-card" + "" == s.fixture + "|zero-card" && "zero-card" + "" == "zero-card";
    } else {
      LongKey(s, if s.contractState.Some? then s.contractState.value else "", Join(s.routeKinds, ","));
    }
  }

  lemma LongKey(s: Sample, contract: string, routes: string)
    requires s.expectedCards != 0 && contract == (if s.contractState.Some? then s.contractState.value else "")
    requires routes == Join(s.routeKinds, ",")
    ensures SampleKey(s) == Join(KeyParts(s), "|")
  {
    hide Join;
    Bars();
    var four := [s.fixture, s.operationFamily, s.hazard, s.obligationKey];
    var c, d, r := "contract=" + contract, "discharge=" + s.dischargeState, "routes=" + routes;
    JoinFour(s.fixture, s.operationFamily, s.hazard, s.obligationKey);
    JoinMore(four, c);
    JoinMore(four + [c], d);
    JoinMore(four + [c] + [d], r);
    assert KeyParts(s) == four + [c] + [d] + [r];
    var front := Join(four, "|");
    Labelled(front, "|contract=", "contract=", contract);
    Labelled(front + "|" + c, "|discharge=", "discharge=", s.dischargeState);
    Labelled(front + "|" + c + "|" + d, "|routes=", "routes=", routes);
  }

  /** Two lists of routes that a key cannot tell apart. */
  predicate SameRoutes(a: seq<string>, b: seq<string>) {
    a == b || (a in [[], [""]] && b in [[], [""]])
  }

  lemma RoutesTold(a: seq<string>, b: seq<string>)
    requires forall i :: 0 <= i < |a| ==> ',' !in a[i]
    requires forall i :: 0 <= i < |b| ==> ',' !in b[i]
    ensures Join(a, ",") == Join(b, ",") <==> SameRoutes(a, b)
  {
    if Join(a, ",") == Join(b, ",") && a != [] && b != [] {
      SplitOfJoin(a, ',');
      SplitOfJoin(b, ',');
    } else if Join(a, ",") == Join(b, ",") {
      NothingJoined(a);
      NothingJoined(b);
    }
  }

  lemma NothingJoined(a: seq<string>)
    ensures Join(a, ",") == "" <==> a in [[], [""]]
  {
    assert |a| > 1 ==> |Join(a, ",")| > 0;
    assert |a| == 1 ==> a == [a[0]];
  }

  lemma LabelledEqual(front: string, a: string, b: string)
    ensures front + a == front + b <==> a == b
  {
    assert (front + a)[|front|..] == a && (front + b)[|front|..] == b;
  }

  /** Two samples have one key exactly when they make the same claim: on a fixture without cards,
    * or with the same family, hazard, obligation, states and routes. An absent contract state
    * reads as an empty one, and no route as one that is empty. */
  lemma SameKeyExactlyWhen(a: Sample, b: Sample)
    requires IsSeparable(a) && IsSeparable(b)
    ensures SampleKey(a) == SampleKey(b) <==>
      && a.fixture == b.fixture && (a.expectedCards == 0 <==> b.expectedCards == 0)
      && (a.expectedCards != 0 ==>
            && a.operationFamily == b.operationFamily && a.hazard == b.hazard && a.obligationKey == b.obligationKey
            && (if a.contractState.Some? then a.contractState.value else "")
               == (if b.contractState.Some? then b.contractState.value else "")
            && a.dischargeState == b.dischargeState && SameRoutes(a.routeKinds, b.routeKinds))
  {
    hide Join, SampleKey, NoBar;
    KeyIsJoined(a);
    KeyIsJoined(b);
    PartsHaveNoBar(a);
    PartsHaveNoBar(b);
    KeysOfParts(KeyParts(a), KeyParts(b));
    var ca := if a.contractState.Some? then a.contractState.value else "";
    var cb := if b.contractState.Some? then b.contractState.value else "";
    LabelledEqual("contract=", ca, cb);
    LabelledEqual("discharge=", a.dischargeState, b.dischargeState);
    LabelledEqual("routes=", Join(a.routeKinds, ","), Join(b.routeKinds, ","));
    RoutesTold(a.routeKinds, b.routeKinds);
    if a.expectedCards != 0 && b.expectedCards != 0 {
      SevenEqual(KeyParts(a), KeyParts(b));
    }
  }

  lemma SevenEqual(a: seq<string>, b: seq<string>)
    requires |a| == 7 && |b| == 7
    ensures a == b <==> a[0] == b[0] && a[1] == b[1] && a[2] == b[2] && a[3] == b[3] && a[4] == b[4] && a[5] == b[5] && a[6] == b[6]
  {}

  lemma KeysOfParts(a: seq<string>, b: seq<string>)
    requires a != [] && b != []
    requires forall i :: 0 <= i < |a| ==> NoBar(a[i])
    requires forall i :: 0 <= i < |b| ==> NoBar(b[i])
    ensures Join(a, "|") == Join(b, "|") <==> a == b
  {
    if Join(a, "|") == Join(b, "|") {
      SplitOfJoin(a, '|');
      SplitOfJoin(b, '|');
    }
  }

  /** A ledger path is a .toml file below the label directory, without backslashes and without
    * two dots in a row. */
  lemma LedgerPathMeans(path: string)
    ensures IsLedgerPath(path) <==>
      && (exists name :: path == "docs/accuracy/labels/" + name + ".toml")
      && '\\' !in path && forall i :: 0 <= i < |path| - 1 ==> !(path[i] == '.' && path[i + 1] == '.')
  {
    hide Find, OccursAt;
    OneCharacter(path);
    TwoDots(path);
    Surrounded(path);
  }

  lemma Surrounded(path: string)
    ensures StartsWith(path, "docs/accuracy/labels/") && EndsWith(path, ".toml") <==>
      exists name :: path == "docs/accuracy/labels/" + name + ".toml"
  {
    hide StartsWith, EndsWith;
    if StartsWith(path, "docs/accuracy/labels/") && EndsWith(path, ".toml") {
      var name := NameIn(path);
      assert path == "docs/accuracy/labels/" + name + ".toml";
    }
    if name :| path == "docs/accuracy/labels/" + name + ".toml" {
      AroundName(path, name);
    }
  }

  lemma NameIn(path: string) returns (name: string)
    requires StartsWith(path, "docs/accuracy/labels/") && EndsWith(path, ".toml")
    ensures path == "docs/accuracy/labels/" + name + ".toml"
  {
    NoOverlap(path);
    name := path[21..|path| - 5];
    assert path == path[..21] + name + path[|path| - 5..];
  }

  lemma AroundName(path: string, name: string)
    requires path == "docs/accuracy/labels/" + name + ".toml"
    ensures StartsWith(path, "docs/accuracy/labels/") && EndsWith(path, ".toml")
  {
    assert path[|path| - 5..] == ".toml";
  }

  lemma NoOverlap(path: string)
    requires StartsWith(path, "docs/accuracy/labels/") && EndsWith(path, ".toml")
    ensures |path| >= 26
  {
    var n := |path|;
    assert path[n - 5] == path[n - 5..][0] == '.';
    assert forall i :: 0 <= i < 21 ==> path[i] == "docs/accuracy/labels/"[i];
  }

  lemma OneCharacter(path: string)
    ensures Find(path, "\\").None? <==> '\\' !in path
  {
    if i :| 0 <= i < |path| && path[i] == '\\' {
      assert path[i..i + 1] == [path[i]] == "\\";
      assert OccursAt(path, "\\", i);
    }
    if Find(path, "\\").Some? {
      var i := Find(path, "\\").value;
      assert path[i..i + 1][0] == path[i];
    }
  }

  lemma TwoDots(path: string)
    ensures Find(path, "..").None? <==> forall i :: 0 <= i < |path| - 1 ==> !(path[i] == '.' && path[i + 1] == '.')
  {
    if i :| 0 <= i < |path| - 1 && path[i] == '.' && path[i + 1] == '.' {
      assert path[i..i + 2] == [path[i], path[i + 1]] == "..";
      assert OccursAt(path, "..", i);
    }
    if Find(path, "..").Some? {
      var i := Find(path, "..").value;
      assert path[i..i + 2][0] == path[i] && path[i..i + 2][1] == path[i + 1];
    }
  }
}
