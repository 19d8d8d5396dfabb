/** The repair-queue artifact, its index by card and the counts taken from that index:
  * xtask/src/advisory_artifacts.rs. */
module RepairQueue {
  import opened Wrappers
  import opened Text

  const BUCKETS := ["repairable_by_guard", "repairable_by_safety_docs", "repairable_by_test",
                    "requires_witness_receipt", "requires_human_review", "do_not_auto_repair"]

  const STATES := ["ready_for_agent", "requires_human_review", "requires_witness_receipt", "unsupported"]

  /** A bucket entry. The flag says whether its field-by-field and wording checks pass. */
  datatype Entry = Entry(cardId: string, ready: bool, state: string, reasons: seq<string>, fieldsOk: bool)

  /** The decoded artifact: bucket arrays and summary numbers by name. */
  datatype Queue = Queue(headerOk: bool, cards: nat, buckets: map<string, seq<Entry>>, summary: map<string, nat>)

  datatype Projection = Projection(buckets: seq<string>, ready: bool, state: string, reasons: seq<string>)

  type Index = map<string, Projection>

  datatype QueueError =
    | BadHeader | CardCountDiffers | UnknownBucket | MissingBucket | MissingSummary | SummaryDiffers
    | UnknownCard | BadFields | UnknownState | ReadyStateDiffers | NoReasons | MustNotBeReady
    | RepeatedCard | InconsistentReadiness | UnqueuedCard

  // ---------- one entry ----------

  function CheckReadiness(e: Entry, bucket: string): (r: Option<QueueError>)
    ensures r.None? <==> ReadinessOk(e, bucket)
    ensures r == Some(UnknownState) <==> e.state !in STATES
    ensures r == Some(ReadyStateDiffers) <==> e.state in STATES && e.ready != (e.state == "ready_for_agent")
    ensures r == Some(NoReasons) <==> e.state in STATES && e.ready == (e.state == "ready_for_agent") && e.reasons == []
  {
    if e.state !in STATES then Some(UnknownState)
    else if e.ready && e.state != "ready_for_agent" then Some(ReadyStateDiffers)
    else if !e.ready && e.state == "ready_for_agent" then Some(ReadyStateDiffers)
    else if e.reasons == [] then Some(NoReasons)
    else if bucket in ["requires_human_review", "do_not_auto_repair"] && e.ready then Some(MustNotBeReady)
    else None
  }

  predicate ReadinessOk(e: Entry, bucket: string) {
    e.state in STATES && e.reasons != [] && (e.ready <==> e.state == "ready_for_agent") &&
    (bucket in ["requires_human_review", "do_not_auto_repair"] ==> !e.ready)
  }

  function CheckEntry(e: Entry, bucket: string, cardIds: set<string>): (r: Option<QueueError>)
    ensures r.None? <==> EntryOk(e, bucket, cardIds)
  {
    if e.cardId !in cardIds then Some(UnknownCard)
    else if !e.fieldsOk then Some(BadFields)
    else CheckReadiness(e, bucket)
  }

  predicate EntryOk(e: Entry, bucket: string, cardIds: set<string>) {
    e.cardId in cardIds && e.fieldsOk && ReadinessOk(e, bucket)
  }

  // ---------- what an acceptable queue is ----------

  predicate SameReadiness(a: Entry, b: Entry) {
    a.ready == b.ready && a.state == b.state && a.reasons == b.reasons
  }

  predicate IsBucket(name: string) {
    name in BUCKETS
  }

  /** Every one of the six buckets is present. */
  predicate Complete(q: Queue) {
    forall b :: b in BUCKETS ==> b in q.buckets
  }

  predicate BucketListed(q: Queue, bucket: string) {
    bucket in q.buckets && bucket in q.summary && q.summary[bucket] == |q.buckets[bucket]|
  }

  predicate BucketOk(q: Queue, bucket: string, cardIds: set<string>)
    requires bucket in q.buckets
  {
    && (forall i :: 0 <= i < |q.buckets[bucket]| ==> EntryOk(q.buckets[bucket][i], bucket, cardIds))
    && DistinctIds(q.buckets[bucket])
  }

  predicate DistinctIds(entries: seq<Entry>) {
    forall i, j :: 0 <= i < j < |entries| ==> entries[i].cardId != entries[j].cardId
  }

  predicate Lists(entries: seq<Entry>, id: string) {
    exists i :: 0 <= i < |entries| && entries[i].cardId == id
  }

  predicate Holds(q: Queue, bucket: string, id: string)
    requires bucket in q.buckets
  {
    Lists(q.buckets[bucket], id)
  }

  /** Every bucket is listed with its size, holds checked entries of distinct cards, the
    * entries of one card agree on its readiness, and every card is in some bucket. */
  ghost predicate Acceptable(q: Queue, cardCount: nat, cardIds: set<string>) {
    && q.headerOk && q.cards == cardCount
    && (forall b :: b in q.buckets ==> b in BUCKETS)
    && Complete(q)
    && (forall b :: b in BUCKETS ==> BucketListed(q, b))
    && (forall b :: b in BUCKETS ==> BucketOk(q, b, cardIds))
    && Consistent(AllEntries(q))
    && (forall id :: id in cardIds ==> exists b :: b in BUCKETS && Holds(q, b, id))
  }

  // ---------- entries in reading order ----------

  datatype Tagged = Tagged(bucket: string, entry: Entry)

  function Tag(bucket: string, entries: seq<Entry>): (r: seq<Tagged>)
    ensures |r| == |entries|
  {
    seq(|entries|, i requires 0 <= i < |entries| => Tagged(bucket, entries[i]))
  }

  function EntriesIn(q: Queue, buckets: seq<string>): seq<Tagged>
    requires forall b :: b in buckets ==> b in q.buckets
  {
    if buckets == [] then []
    else
      var n := |buckets| - 1;
      EntriesIn(q, buckets[..n]) + Tag(buckets[n], q.buckets[buckets[n]])
  }

  function AllEntries(q: Queue): seq<Tagged>
    requires Complete(q)
  {
    EntriesIn(q, BUCKETS)
  }

  ghost predicate Consistent(seen: seq<Tagged>) {
    forall i, j :: 0 <= i < j < |seen| && seen[i].entry.cardId == seen[j].entry.cardId ==>
      SameReadiness(seen[i].entry, seen[j].entry)
  }

  /** The buckets of the entries of one card, in reading order. */
  function BucketsIn(seen: seq<Tagged>, id: string): (r: seq<string>)
    ensures forall b :: b in r <==> exists k :: 0 <= k < |seen| && seen[k].bucket == b && seen[k].entry.cardId == id
  {
    if seen == [] then []
    else
      var n := |seen| - 1;
      var r := BucketsIn(seen[..n], id);
      if seen[n].entry.cardId == id then r + [seen[n].bucket] else r
  }

  /** The index agrees with the entries seen: the same cards, each with its buckets in
    * reading order and the readiness of all its entries. */
  ghost predicate Indexed(seen: seq<Tagged>, index: Index) {
    && (forall k :: 0 <= k < |seen| ==> seen[k].entry.cardId in index)
    && (forall id :: id in index ==> exists k :: 0 <= k < |seen| && seen[k].entry.cardId == id)
    && (forall k :: 0 <= k < |seen| ==> Agrees(index, seen[k].entry))
    && (forall id :: id in index ==> index[id].buckets == BucketsIn(seen, id))
  }

  predicate Agrees(index: Index, e: Entry) {
    e.cardId in index &&
    var p := index[e.cardId];
    p.ready == e.ready && p.state == e.state && p.reasons == e.reasons
  }

  /** What one card's projection becomes when one of its entries is pushed. */
  function Pushed(index: Index, bucket: string, e: Entry): Index {
    var p := if e.cardId in index then index[e.cardId] else Projection([], e.ready, e.state, e.reasons);
    index[e.cardId := if bucket in p.buckets then p else p.(buckets := p.buckets + [bucket])]
  }

  method PushRepairQueueProjection(index: Index, bucket: string, e: Entry) returns (r: Result<Index, QueueError>)
    ensures r == if e.cardId in index && !Agrees(index, e) then Err(InconsistentReadiness)
                 else Ok(Pushed(index, bucket, e))
  {
    var p := if e.cardId in index then index[e.cardId] else Projection([], e.ready, e.state, e.reasons);
    if p.ready != e.ready {
      return Err(InconsistentReadiness);
    }
    if p.state != e.state {
      return Err(InconsistentReadiness);
    }
    if p.reasons != e.reasons {
      return Err(InconsistentReadiness);
    }
    if bucket !in p.buckets {
      p := p.(buckets := p.buckets + [bucket]);
    }
    r := Ok(index[e.cardId := p]);
  }

  lemma PushKeepsIndexed(seen: seq<Tagged>, index: Index, bucket: string, e: Entry)
    requires Indexed(seen, index) && (e.cardId in index ==> Agrees(index, e))
    requires bucket !in BucketsIn(seen, e.cardId)
    ensures Indexed(seen + [Tagged(bucket, e)], Pushed(index, bucket, e))
  {
    PushedBuckets(seen, index, bucket, e);
    PushedAgrees(seen, index, bucket, e);
    PushedIds(seen, index, bucket, e);
  }

  lemma PushedAgrees(seen: seq<Tagged>, index: Index, bucket: string, e: Entry)
    requires Indexed(seen, index) && (e.cardId in index ==> Agrees(index, e))
    ensures var more := seen + [Tagged(bucket, e)];
      forall k :: 0 <= k < |more| ==> Agrees(Pushed(index, bucket, e), more[k].entry)
  {
    hide BucketsIn;
    var more := seen + [Tagged(bucket, e)];
    forall k | 0 <= k < |more|
      ensures Agrees(Pushed(index, bucket, e), more[k].entry)
    {
      assert k < |seen| ==> more[k] == seen[k];
      assert k < |seen| ==> Agrees(index, seen[k].entry);
    }
  }

  lemma PushedIds(seen: seq<Tagged>, index: Index, bucket: string, e: Entry)
    requires Indexed(seen, index)
    ensures var more := seen + [Tagged(bucket, e)];
      forall id :: id in Pushed(index, bucket, e) ==> exists k :: 0 <= k < |more| && more[k].entry.cardId == id
  {
    hide BucketsIn, Agrees;
    var more := seen + [Tagged(bucket, e)];
    forall id | id in Pushed(index, bucket, e)
      ensures exists k :: 0 <= k < |more| && more[k].entry.cardId == id
    {
      if id == e.cardId {
        assert more[|seen|].entry.cardId == id;
      } else {
        var k :| 0 <= k < |seen| && seen[k].entry.cardId == id;
        assert more[k].entry.cardId == id;
      }
    }
  }

  lemma PushedBuckets(seen: seq<Tagged>, index: Index, bucket: string, e: Entry)
    requires Indexed(seen, index) && bucket !in BucketsIn(seen, e.cardId)
    ensures var index' := Pushed(index, bucket, e);
      forall id :: id in index' ==> index'[id].buckets == BucketsIn(seen + [Tagged(bucket, e)], id)
  {
    hide Agrees;
    assert (seen + [Tagged(bucket, e)])[..|seen|] == seen;
    if e.cardId !in index {
      NoBuckets(seen, e.cardId);
    }
  }

  lemma {:induction false} NoBuckets(seen: seq<Tagged>, id: string)
    requires forall k :: 0 <= k < |seen| ==> seen[k].entry.cardId != id
    ensures BucketsIn(seen, id) == []
  {
    if seen != [] {
      NoBuckets(seen[..|seen| - 1], id);
    }
  }

  /** Two entries of one card that disagree make the list inconsistent. */
  lemma DisagreementShows(seen: seq<Tagged>, index: Index, all: seq<Tagged>, at: nat)
    requires at < |all| && seen == all[..at] && Indexed(seen, index)
    requires all[at].entry.cardId in index && !Agrees(index, all[at].entry)
    ensures !Consistent(all)
  {
    var k :| 0 <= k < |seen| && seen[k].entry.cardId == all[at].entry.cardId;
    assert Agrees(index, seen[k].entry) && all[k] == seen[k];
    assert !SameReadiness(all[k].entry, all[at].entry);
  }

  // ---------- the verifier ----------

  lemma BucketsDistinct()
    ensures forall i, j :: 0 <= i < j < |BUCKETS| ==> BUCKETS[i] != BUCKETS[j]
  {
    assert BUCKETS[0][11] == 'b' && BUCKETS[0][14] == 'g';
    assert BUCKETS[1][14] == 's' && BUCKETS[2][14] == 't';
    assert |BUCKETS[0]| == 19 && |BUCKETS[1]| == 25 && |BUCKETS[2]| == 18;
    assert |BUCKETS[3]| == 24 && |BUCKETS[4]| == 21 && |BUCKETS[5]| == 18;
    assert BUCKETS[2][0] == 'r' && BUCKETS[5][0] == 'd';
  }

  lemma {:induction false} EntriesFrom(q: Queue, buckets: seq<string>)
    requires forall b :: b in buckets ==> b in q.buckets
    ensures forall k :: 0 <= k < |EntriesIn(q, buckets)| ==> EntriesIn(q, buckets)[k].bucket in buckets
  {
    if buckets != [] {
      EntriesFrom(q, buckets[..|buckets| - 1]);
    }
  }

  /** The entries before position i of the bucket numbered bi, in reading order. */
  function Before(q: Queue, bi: nat, i: nat): seq<Tagged>
    requires bi < |BUCKETS| && forall j :: 0 <= j <= bi ==> BUCKETS[j] in q.buckets
    requires i <= |q.buckets[BUCKETS[bi]]|
  {
    EntriesIn(q, BUCKETS[..bi]) + Tag(BUCKETS[bi], q.buckets[BUCKETS[bi]][..i])
  }

  lemma NextEntry(q: Queue, bi: nat, i: nat)
    requires bi < |BUCKETS| && forall j :: 0 <= j <= bi ==> BUCKETS[j] in q.buckets
    requires i < |q.buckets[BUCKETS[bi]]|
    ensures Before(q, bi, i + 1) == Before(q, bi, i) + [Tagged(BUCKETS[bi], q.buckets[BUCKETS[bi]][i])]
  {}

  lemma NextBucket(q: Queue, bi: nat)
    requires bi < |BUCKETS| && forall j :: 0 <= j <= bi ==> BUCKETS[j] in q.buckets
    ensures Before(q, bi, 0) == EntriesIn(q, BUCKETS[..bi])
    ensures Before(q, bi, |q.buckets[BUCKETS[bi]]|) == EntriesIn(q, BUCKETS[..bi + 1])
  {
    assert BUCKETS[..bi + 1][..bi] == BUCKETS[..bi];
    var entries := q.buckets[BUCKETS[bi]];
    assert entries[..|entries|] == entries;
  }

  lemma {:induction false} EntriesGrow(q: Queue, m: nat, n: nat)
    requires m <= n <= |BUCKETS| && forall j :: 0 <= j < n ==> BUCKETS[j] in q.buckets
    ensures EntriesIn(q, BUCKETS[..m]) <= EntriesIn(q, BUCKETS[..n])
    decreases n
  {
    if m < n {
      EntriesGrow(q, m, n - 1);
      assert BUCKETS[..n][..n - 1] == BUCKETS[..n - 1];
    }
  }

  lemma BeforeIsPrefix(q: Queue, bi: nat, i: nat)
    requires bi < |BUCKETS| && Complete(q)
    requires i < |q.buckets[BUCKETS[bi]]|
    ensures var seen := Before(q, bi, i);
      seen + [Tagged(BUCKETS[bi], q.buckets[BUCKETS[bi]][i])] <= AllEntries(q)
  {
    NextEntry(q, bi, i);
    NextBucket(q, bi);
    var entries := q.buckets[BUCKETS[bi]];
    assert entries[..i + 1] <= entries;
    assert Before(q, bi, i + 1) <= Before(q, bi, |entries|);
    EntriesGrow(q, bi + 1, |BUCKETS|);
    assert BUCKETS[..|BUCKETS|] == BUCKETS;
  }

  /** An entry that disagrees with the index so far spoils the queue. */
  lemma DisagreementRejects(q: Queue, bi: nat, i: nat, index: Index, cardCount: nat, cardIds: set<string>)
    requires bi < |BUCKETS| && forall j :: 0 <= j <= bi ==> BUCKETS[j] in q.buckets
    requires i < |q.buckets[BUCKETS[bi]]|
    requires Indexed(Before(q, bi, i), index)
    requires q.buckets[BUCKETS[bi]][i].cardId in index && !Agrees(index, q.buckets[BUCKETS[bi]][i])
    ensures !Acceptable(q, cardCount, cardIds)
  {
    hide Indexed, Agrees, Consistent, BucketOk;
    if Complete(q) {
      BeforeIsPrefix(q, bi, i);
      var seen, all := Before(q, bi, i), AllEntries(q);
      assert all[..|seen|] == seen && all[|seen|].entry == q.buckets[BUCKETS[bi]][i];
      DisagreementShows(seen, index, all, |seen|);
    }
  }

  lemma IndexedIsConsistent(seen: seq<Tagged>, index: Index)
    requires Indexed(seen, index)
    ensures Consistent(seen)
  {
    forall i, j | 0 <= i < j < |seen| && seen[i].entry.cardId == seen[j].entry.cardId
      ensures SameReadiness(seen[i].entry, seen[j].entry)
    {
      assert Agrees(index, seen[i].entry) && Agrees(index, seen[j].entry);
    }
  }

  lemma InEntriesIsHeld(q: Queue, id: string, index: Index)
    requires Complete(q) && Indexed(AllEntries(q), index)
    ensures id in index <==> exists b :: b in BUCKETS && Holds(q, b, id)
  {
    EntriesAreHeld(q, BUCKETS, id);
  }

  lemma {:induction false} EntriesAreHeld(q: Queue, buckets: seq<string>, id: string)
    requires forall b :: b in buckets ==> b in q.buckets
    ensures (exists k :: 0 <= k < |EntriesIn(q, buckets)| && EntriesIn(q, buckets)[k].entry.cardId == id)
       <==> (exists b :: b in buckets && Holds(q, b, id))
  {
    if buckets != [] {
      var n := |buckets| - 1;
      EntriesAreHeld(q, buckets[..n], id);
      var front, last := EntriesIn(q, buckets[..n]), Tag(buckets[n], q.buckets[buckets[n]]);
      assert EntriesIn(q, buckets) == front + last;
      assert forall b :: b in buckets <==> b in buckets[..n] || b == buckets[n];
      if Holds(q, buckets[n], id) {
        var i :| 0 <= i < |q.buckets[buckets[n]]| && q.buckets[buckets[n]][i].cardId == id;
        assert EntriesIn(q, buckets)[|front| + i].entry.cardId == id;
      }
      if k :| 0 <= k < |front| && front[k].entry.cardId == id {
        assert EntriesIn(q, buckets)[k].entry.cardId == id;
      }
      if k :| 0 <= k < |EntriesIn(q, buckets)| && EntriesIn(q, buckets)[k].entry.cardId == id {
        if k >= |front| {
          assert q.buckets[buckets[n]][k - |front|].cardId == id;
        } else {
          assert front[k].entry.cardId == id;
        }
      }
    }
  }

  function CardIds(entries: seq<Entry>): set<string> {
    set e | e in entries :: e.cardId
  }

  lemma NotYet(q: Queue, bi: nat, i: nat)
    requires bi < |BUCKETS| && forall j :: 0 <= j <= bi ==> BUCKETS[j] in q.buckets
    requires i < |q.buckets[BUCKETS[bi]]|
    requires forall j :: 0 <= j < i ==> q.buckets[BUCKETS[bi]][j].cardId != q.buckets[BUCKETS[bi]][i].cardId
    ensures BUCKETS[bi] !in BucketsIn(Before(q, bi, i), q.buckets[BUCKETS[bi]][i].cardId)
  {
    hide BucketsIn, EntriesIn;
    BucketsDistinct();
    EntriesFrom(q, BUCKETS[..bi]);
  }

  lemma BadListingRejects(q: Queue, cardCount: nat, cardIds: set<string>, bi: nat)
    requires bi < |BUCKETS| && !BucketListed(q, BUCKETS[bi])
    ensures !Acceptable(q, cardCount, cardIds)
  {
    hide Consistent, BucketOk, Holds;
    assert BUCKETS[bi] in BUCKETS;
  }

  lemma BadBucketRejects(q: Queue, cardCount: nat, cardIds: set<string>, bi: nat)
    requires bi < |BUCKETS| && BUCKETS[bi] in q.buckets && !BucketOk(q, BUCKETS[bi], cardIds)
    ensures !Acceptable(q, cardCount, cardIds)
  {
    hide Consistent, BucketOk, BucketListed, Holds;
    assert BUCKETS[bi] in BUCKETS;
  }

  lemma BadHeaderRejects(q: Queue, cardCount: nat, cardIds: set<string>)
    requires !q.headerOk || q.cards != cardCount || exists b :: b in q.buckets && b !in BUCKETS
    ensures !Acceptable(q, cardCount, cardIds)
  {
    hide Consistent, BucketOk, BucketListed, Holds;
  }

  predicate CheckedUpTo(q: Queue, n: nat, cardIds: set<string>) {
    n <= |BUCKETS| &&
    forall j :: 0 <= j < n ==> BucketListed(q, BUCKETS[j]) && BucketOk(q, BUCKETS[j], cardIds)
  }

  lemma AllListed(q: Queue)
    requires forall j :: 0 <= j < |BUCKETS| ==> BUCKETS[j] in q.buckets
    ensures Complete(q)
  {
    forall b | b in BUCKETS
      ensures b in q.buckets
    {
      var j :| 0 <= j < |BUCKETS| && BUCKETS[j] == b;
    }
  }

  lemma AllBucketsChecked(q: Queue, cardCount: nat, cardIds: set<string>, index: Index)
    requires q.headerOk && q.cards == cardCount && forall b :: b in q.buckets ==> b in BUCKETS
    requires CheckedUpTo(q, |BUCKETS|, cardIds)
    requires Complete(q) && Indexed(AllEntries(q), index)
    ensures Acceptable(q, cardCount, cardIds) <==> forall id :: id in cardIds ==> id in index
  {
    hide Consistent, BucketOk, Holds, Indexed, EntriesIn;
    IndexedIsConsistent(AllEntries(q), index);
    forall id
      ensures id in index <==> exists b :: b in BUCKETS && Holds(q, b, id)
    {
      InEntriesIsHeld(q, id, index);
    }
  }

  /** Accepts exactly the acceptable queues, and then returns their index by card. */
  method CheckRepairQueueArtifact(q: Queue, cardCount: nat, cardIds: set<string>)
    returns (r: Result<Index, QueueError>)
    ensures r.Ok? <==> Acceptable(q, cardCount, cardIds)
    ensures r.Ok? ==> Indexed(AllEntries(q), r.value)
  {
    hide Indexed, Agrees, EntriesIn, EntryOk, Before, BucketsIn, Pushed, Acceptable, DistinctIds, CardIds, BUCKETS;
    if !q.headerOk {
      BadHeaderRejects(q, cardCount, cardIds);
      return Err(BadHeader);
    }
    if q.cards != cardCount {
      BadHeaderRejects(q, cardCount, cardIds);
      return Err(CardCountDiffers);
    }
    if exists b :: b in q.buckets && b !in BUCKETS {
      BadHeaderRejects(q, cardCount, cardIds);
      return Err(UnknownBucket);
    }
    var queued: set<string> := {};
    var index: Index := map[];
    NothingIndexed(q);
    for bi := 0 to |BUCKETS|
      invariant CheckedUpTo(q, bi, cardIds)
      invariant Indexed(EntriesIn(q, BUCKETS[..bi]), index) && queued == index.Keys
    {
      var bucket := BUCKETS[bi];
      if bucket !in q.buckets {
        BadListingRejects(q, cardCount, cardIds, bi);
        return Err(MissingBucket);
      }
      if bucket !in q.summary {
        BadListingRejects(q, cardCount, cardIds, bi);
        return Err(MissingSummary);
      }
      var entries := q.buckets[bucket];
      if q.summary[bucket] != |entries| {
        BadListingRejects(q, cardCount, cardIds, bi);
        return Err(SummaryDiffers);
      }
      NextBucket(q, bi);
      var bucketIds: set<string> := {};
      NoIds(entries);
      for i := 0 to |entries|
        invariant forall j :: 0 <= j < i ==> EntryOk(entries[j], bucket, cardIds)
        invariant DistinctIds(entries[..i]) && bucketIds == CardIds(entries[..i])
        invariant Indexed(Before(q, bi, i), index) && queued == index.Keys
      {
        var e := entries[i];
        var bad := CheckEntry(e, bucket, cardIds);
        if bad.Some? {
          BadBucketRejects(q, cardCount, cardIds, bi);
          return Err(bad.value);
        }
        AddId(entries, i);
        if e.cardId in bucketIds {
          BadBucketRejects(q, cardCount, cardIds, bi);
          return Err(RepeatedCard);
        }
        bucketIds := bucketIds + {e.cardId};
        queued := queued + {e.cardId};
        var pushed := PushRepairQueueProjection(index, bucket, e);
        if pushed.Err? {
          DisagreementRejects(q, bi, i, index, cardCount, cardIds);
          return Err(pushed.error);
        }
        PushedEntry(q, bi, i, index);
        index := pushed.value;
      }
      assert entries[..|entries|] == entries;
    }
    assert BUCKETS[..|BUCKETS|] == BUCKETS;
    assert Complete(q) by {
      AllListed(q);
    }
    AllBucketsChecked(q, cardCount, cardIds, index);
    if exists id :: id in cardIds && id !in queued {
      return Err(UnqueuedCard);
    }
    r := Ok(index);
  }

  lemma NoIds(entries: seq<Entry>)
    ensures DistinctIds(entries[..0]) && CardIds(entries[..0]) == {}
  {}

  lemma AddId(entries: seq<Entry>, i: nat)
    requires i < |entries| && DistinctIds(entries[..i])
    ensures CardIds(entries[..i + 1]) == CardIds(entries[..i]) + {entries[i].cardId}
    ensures entries[i].cardId in CardIds(entries[..i]) ==> !DistinctIds(entries)
    ensures entries[i].cardId !in CardIds(entries[..i]) ==>
      DistinctIds(entries[..i + 1]) && forall j :: 0 <= j < i ==> entries[j].cardId != entries[i].cardId
  {
    var front := entries[..i];
    assert entries[..i + 1] == front + [entries[i]];
    if entries[i].cardId in CardIds(front) {
      var j :| 0 <= j < i && front[j].cardId == entries[i].cardId;
      assert entries[j].cardId == entries[i].cardId;
    } else {
      forall j | 0 <= j < i
        ensures entries[j].cardId != entries[i].cardId
      {
        assert front[j] in front;
      }
    }
  }

  lemma NothingIndexed(q: Queue)
    ensures Indexed(EntriesIn(q, BUCKETS[..0]), map[])
  {}

  lemma PushedEntry(q: Queue, bi: nat, i: nat, index: Index)
    requires bi < |BUCKETS| && forall j :: 0 <= j <= bi ==> BUCKETS[j] in q.buckets
    requires i < |q.buckets[BUCKETS[bi]]|
    requires forall j :: 0 <= j < i ==> q.buckets[BUCKETS[bi]][j].cardId != q.buckets[BUCKETS[bi]][i].cardId
    requires Indexed(Before(q, bi, i), index)
    requires q.buckets[BUCKETS[bi]][i].cardId in index ==> Agrees(index, q.buckets[BUCKETS[bi]][i])
    ensures Indexed(Before(q, bi, i + 1), Pushed(index, BUCKETS[bi], q.buckets[BUCKETS[bi]][i]))
    ensures Pushed(index, BUCKETS[bi], q.buckets[BUCKETS[bi]][i]).Keys
         == index.Keys + {q.buckets[BUCKETS[bi]][i].cardId}
  {
    hide Indexed, Agrees, EntriesIn, BucketsIn;
    BucketsDistinct();
    var e := q.buckets[BUCKETS[bi]][i];
    EntriesFrom(q, BUCKETS[..bi]);
    NotYet(q, bi, i);
    PushKeepsIndexed(Before(q, bi, i), index, BUCKETS[bi], e);
    NextEntry(q, bi, i);
  }

  // ---------- the index read back ----------

  function Filter(q: Queue, buckets: seq<string>, id: string): seq<string>
    requires forall b :: b in buckets ==> b in q.buckets
  {
    if buckets == [] then []
    else
      var n := |buckets| - 1;
      Filter(q, buckets[..n], id) + if Holds(q, buckets[n], id) then [buckets[n]] else []
  }

  /** In an acceptable queue a card's projected buckets are the buckets that hold it, in
    * the fixed bucket order and each once, and every entry of a card has the one readiness
    * that its projection shows. */
  lemma IndexIsInverse(q: Queue, cardCount: nat, cardIds: set<string>, index: Index)
    requires Acceptable(q, cardCount, cardIds) && Indexed(AllEntries(q), index)
    ensures index.Keys == cardIds && Complete(q)
    ensures forall id :: id in index ==> ProjectionOk(q, id, index[id])
    ensures forall id :: id in index ==> NoRepeats(index[id].buckets)
    ensures forall b, e :: b in BUCKETS && e in q.buckets[b] ==> Agrees(index, e)
  {
    hide EntriesIn, Consistent, Indexed, Acceptable, ProjectionOk, NoRepeats, Agrees;
    IndexKeys(q, cardCount, cardIds, index);
    forall b, e | b in BUCKETS && e in q.buckets[b]
      ensures Agrees(index, e)
    {
      EntryAgrees(q, index, b, e);
    }
    forall id | id in index
      ensures ProjectionOk(q, id, index[id]) && NoRepeats(index[id].buckets)
    {
      ProjectedBuckets(q, cardCount, cardIds, index, id);
      ProjectedReadiness(q, cardCount, cardIds, index, id);
      FinishProjection(q, id, index[id]);
      ProjectedOnce(q, id);
    }
  }

  lemma ProjectedOnce(q: Queue, id: string)
    requires Complete(q)
    ensures NoRepeats(Filter(q, BUCKETS, id))
  {
    BucketsDistinct();
    hide BUCKETS, Filter, Holds;
    FilterOnce(q, BUCKETS, id);
  }

  lemma EntryAgrees(q: Queue, index: Index, bucket: string, e: Entry)
    requires Complete(q) && Indexed(AllEntries(q), index) && bucket in BUCKETS && e in q.buckets[bucket]
    ensures Agrees(index, e)
  {
    hide BUCKETS, EntriesIn, BucketsIn, Agrees;
    var k := EntryGoesTo(q, BUCKETS, bucket, e);
  }

  lemma {:induction false} EntryGoesTo(q: Queue, buckets: seq<string>, bucket: string, e: Entry) returns (k: nat)
    requires (forall b :: b in buckets ==> b in q.buckets) && bucket in buckets && e in q.buckets[bucket]
    ensures k < |EntriesIn(q, buckets)| && EntriesIn(q, buckets)[k].entry == e
  {
    var n := |buckets| - 1;
    var front := EntriesIn(q, buckets[..n]);
    if bucket == buckets[n] {
      var i :| 0 <= i < |q.buckets[bucket]| && q.buckets[bucket][i] == e;
      k := |front| + i;
    } else {
      assert buckets == buckets[..n] + [buckets[n]];
      k := EntryGoesTo(q, buckets[..n], bucket, e);
      assert EntriesIn(q, buckets)[k] == front[k];
    }
  }

  lemma FinishProjection(q: Queue, id: string, p: Projection)
    requires Complete(q) && p.buckets == Filter(q, BUCKETS, id)
    requires p.state in STATES && (p.ready <==> p.state == "ready_for_agent")
    ensures ProjectionOk(q, id, p)
  {
    hide Filter, Holds;
    FilterKeeps(q, BUCKETS, id);
  }

  /** A card's projection lists the buckets that hold it, in the fixed bucket order and
    * each once, and its state is a known one that matches its readiness. */
  ghost predicate ProjectionOk(q: Queue, id: string, p: Projection)
    requires Complete(q)
  {
    p.buckets == Filter(q, BUCKETS, id) &&
    (forall b :: b in p.buckets <==> b in BUCKETS && Holds(q, b, id)) &&
    p.state in STATES && (p.ready <==> p.state == "ready_for_agent")
  }

  lemma IndexKeys(q: Queue, cardCount: nat, cardIds: set<string>, index: Index)
    requires Acceptable(q, cardCount, cardIds) && Indexed(AllEntries(q), index)
    ensures index.Keys == cardIds && Complete(q)
  {
    hide EntriesIn, Consistent, Indexed, BucketListed;
    forall id
      ensures id in index <==> id in cardIds
    {
      InEntriesIsHeld(q, id, index);
    }
  }

  lemma ProjectedBuckets(q: Queue, cardCount: nat, cardIds: set<string>, index: Index, id: string)
    requires Acceptable(q, cardCount, cardIds) && Indexed(AllEntries(q), index) && id in index
    ensures index[id].buckets == Filter(q, BUCKETS, id)
  {
    hide EntriesIn, Consistent, BucketsIn, Filter, Holds, Agrees;
    BucketsInFilter(q, BUCKETS, id);
  }

  lemma {:induction false} FilterKeeps(q: Queue, buckets: seq<string>, id: string)
    requires forall b :: b in buckets ==> b in q.buckets
    ensures forall b :: b in Filter(q, buckets, id) <==> b in buckets && Holds(q, b, id)
  {
    hide Holds;
    if buckets != [] {
      var n := |buckets| - 1;
      FilterKeeps(q, buckets[..n], id);
      assert buckets == buckets[..n] + [buckets[n]];
    }
  }

  lemma {:induction false} BucketsInFilter(q: Queue, buckets: seq<string>, id: string)
    requires forall b :: b in buckets ==> b in q.buckets && DistinctIds(q.buckets[b])
    ensures BucketsIn(EntriesIn(q, buckets), id) == Filter(q, buckets, id)
  {
    if buckets != [] {
      var n := |buckets| - 1;
      BucketsInFilter(q, buckets[..n], id);
      BucketsInTag(EntriesIn(q, buckets[..n]), buckets[n], q.buckets[buckets[n]], id);
    }
  }

  lemma ListsLast(entries: seq<Entry>, id: string)
    requires entries != [] && DistinctIds(entries)
    ensures var n := |entries| - 1;
      && DistinctIds(entries[..n])
      && (Lists(entries, id) <==> entries[n].cardId == id || Lists(entries[..n], id))
      && !(entries[n].cardId == id && Lists(entries[..n], id))
  {
    var n := |entries| - 1;
    if i :| 0 <= i < n && entries[i].cardId == id {
      assert entries[..n][i].cardId == id;
    }
  }

  lemma TagLast(seen: seq<Tagged>, bucket: string, entries: seq<Entry>)
    requires entries != []
    ensures var n := |entries| - 1;
      seen + Tag(bucket, entries) == seen + Tag(bucket, entries[..n]) + [Tagged(bucket, entries[n])]
  {}

  lemma BucketsInLast(seen: seq<Tagged>, last: Tagged, id: string)
    ensures BucketsIn(seen + [last], id) == BucketsIn(seen, id) + if last.entry.cardId == id then [last.bucket] else []
  {
    assert (seen + [last])[..|seen|] == seen;
  }

  /** One bucket of distinct cards adds its name to a card's list at most once. */
  lemma {:induction false} BucketsInTag(seen: seq<Tagged>, bucket: string, entries: seq<Entry>, id: string)
    requires DistinctIds(entries)
    ensures BucketsIn(seen + Tag(bucket, entries), id)
         == BucketsIn(seen, id) + if Lists(entries, id) then [bucket] else []
  {
    hide BucketsIn, DistinctIds;
    if entries == [] {
      assert seen + Tag(bucket, entries) == seen;
    } else {
      hide Tag, Lists;
      var n := |entries| - 1;
      ListsLast(entries, id);
      TagLast(seen, bucket, entries);
      BucketsInTag(seen, bucket, entries[..n], id);
      BucketsInLast(seen + Tag(bucket, entries[..n]), Tagged(bucket, entries[n]), id);
    }
  }

  lemma ProjectedReadiness(q: Queue, cardCount: nat, cardIds: set<string>, index: Index, id: string)
    requires Acceptable(q, cardCount, cardIds) && Indexed(AllEntries(q), index) && id in index
    ensures index[id].state in STATES && (index[id].ready <==> index[id].state == "ready_for_agent")
  {
    hide Consistent, BucketsIn, Holds, EntriesIn, DistinctIds;
    var all := AllEntries(q);
    var k :| 0 <= k < |all| && all[k].entry.cardId == id;
    EntryComesFrom(q, BUCKETS, k);
    assert ReadinessOk(all[k].entry, all[k].bucket);
    assert Agrees(index, all[k].entry);
  }

  lemma {:induction false} EntryComesFrom(q: Queue, buckets: seq<string>, k: nat)
    requires (forall b :: b in buckets ==> b in q.buckets) && k < |EntriesIn(q, buckets)|
    ensures var t := EntriesIn(q, buckets)[k]; t.bucket in buckets && t.entry in q.buckets[t.bucket]
  {
    if buckets != [] {
      var n := |buckets| - 1;
      var front := EntriesIn(q, buckets[..n]);
      if k < |front| {
        EntryComesFrom(q, buckets[..n], k);
      }
    }
  }

  // ---------- counts taken from the index ----------

  function Holders(index: Index, bucket: string): set<string> {
    set id | id in index && bucket in index[id].buckets
  }

  predicate NoRepeats(s: seq<string>) {
    forall i, j :: 0 <= i < j < |s| ==> s[i] != s[j]
  }

  predicate ListsBucketsOnce(index: Index) {
    forall id :: id in index ==> NoRepeats(index[id].buckets)
  }

  /** Every place in the cards' bucket lists that names the bucket, for some of the cards. */
  function Places(index: Index, bucket: string, ids: set<string>): set<(string, int)> {
    set id, i | id in ids && id in index && 0 <= i < |index[id].buckets| && index[id].buckets[i] == bucket :: (id, i)
  }

  /** The counts are right for the cards done so far. */
  ghost predicate Tallied(index: Index, counts: map<string, nat>, done: set<string>) {
    (forall b :: b in counts <==> IsBucket(b)) && forall b :: b in counts ==> counts[b] == |Places(index, b, done)|
  }

  /** The recount is the number of places that name each bucket, for any index; for an index
    * that lists buckets once it is the number of cards in the bucket. */
  method ExpectedBucketCounts(index: Index) returns (counts: map<string, nat>)
    ensures forall b :: b in counts <==> IsBucket(b)
    ensures forall b :: IsBucket(b) ==> counts[b] == |Places(index, b, index.Keys)|
    ensures ListsBucketsOnce(index) ==> forall b :: IsBucket(b) ==> counts[b] == |Holders(index, b)|
  {
    hide Tallied, Holders, Places, Bumped, IsBucket;
    counts := map b | b in BUCKETS :: 0;
    TallyStarts(index, counts);
    var todo := index.Keys;
    ghost var done: set<string> := {};
    while todo != {}
      invariant Tallied(index, counts, done) && done !! todo && done + todo == index.Keys
      decreases todo
    {
      var id :| id in todo;
      var buckets := index[id].buckets;
      ghost var before := counts;
      BumpedNone(before, buckets);
      for i := 0 to |buckets|
        invariant counts == Bumped(before, buckets[..i])
      {
        BumpedNext(before, buckets, i);
        if buckets[i] in counts {
          counts := counts[buckets[i] := counts[buckets[i]] + 1];
        }
      }
      assert buckets[..|buckets|] == buckets;
      TallyNext(index, before, done, id);
      todo := todo - {id};
      done := done + {id};
    }
    assert done == index.Keys;
    TallyEnds(index, counts);
  }

  lemma TallyStarts(index: Index, counts: map<string, nat>)
    requires counts == map b | b in BUCKETS :: 0
    ensures Tallied(index, counts, {})
  {
    assert forall b :: b in counts <==> IsBucket(b);
    hide IsBucket;
    forall b
      ensures Places(index, b, {}) == {}
    {}
  }

  lemma TallyNext(index: Index, counts: map<string, nat>, done: set<string>, id: string)
    requires Tallied(index, counts, done) && id in index && id !in done
    ensures Tallied(index, Bumped(counts, index[id].buckets), done + {id})
  {
    hide IsBucket, Places, Bumped;
    var buckets := index[id].buckets;
    BumpedAdds(counts, buckets);
    forall b
      ensures |Places(index, b, done + {id})| == |Places(index, b, done)| + multiset(buckets)[b]
    {
      PlacesMore(index, b, done, id);
    }
  }

  lemma TallyEnds(index: Index, counts: map<string, nat>)
    requires Tallied(index, counts, index.Keys)
    ensures forall b :: b in counts <==> IsBucket(b)
    ensures forall b :: IsBucket(b) ==> counts[b] == |Places(index, b, index.Keys)|
    ensures ListsBucketsOnce(index) ==> forall b :: IsBucket(b) ==> counts[b] == |Holders(index, b)|
  {
    hide IsBucket, Holders, Places, ListsBucketsOnce;
    if ListsBucketsOnce(index) {
      forall b
        ensures |Places(index, b, index.Keys)| == |Holders(index, b)|
      {
        PlacesAreHolders(index, b, index.Keys);
        HoldersWithin(index, b);
        CountEnds(Holders(index, b), index.Keys);
      }
    }
  }

  lemma {:induction false} PlacesIn(id: string, buckets: seq<string>, bucket: string) returns (at: set<(string, int)>)
    ensures at == (set i | 0 <= i < |buckets| && buckets[i] == bucket :: (id, i))
    ensures |at| == multiset(buckets)[bucket]
  {
    if buckets == [] {
      at := {};
    } else {
      var n := |buckets| - 1;
      var before := PlacesIn(id, buckets[..n], bucket);
      assert buckets == buckets[..n] + [buckets[n]];
      at := if buckets[n] == bucket then before + {(id, n)} else before;
    }
  }

  lemma PlacesMore(index: Index, bucket: string, done: set<string>, id: string)
    requires id in index && id !in done
    ensures |Places(index, bucket, done + {id})| == |Places(index, bucket, done)| + multiset(index[id].buckets)[bucket]
  {
    var at := PlacesIn(id, index[id].buckets, bucket);
    assert Places(index, bucket, done + {id}) == Places(index, bucket, done) + at;
    assert Places(index, bucket, done) !! at;
  }

  lemma {:induction false} PlacesAreHolders(index: Index, bucket: string, ids: set<string>)
    requires ListsBucketsOnce(index) && ids <= index.Keys
    ensures |Places(index, bucket, ids)| == CountIn(Holders(index, bucket), ids)
    decreases |ids|
  {
    hide Places, Holders, CountIn;
    if ids == {} {
      NoPlaces(index, bucket);
      HoldersWithin(index, bucket);
      CountEnds(Holders(index, bucket), index.Keys);
    } else {
      var id :| id in ids;
      var rest := ids - {id};
      PlacesAreHolders(index, bucket, rest);
      PlacesMore(index, bucket, rest, id);
      assert rest + {id} == ids;
      HoldersWith(index, bucket, id);
      CountMore(Holders(index, bucket), rest, id);
      OnceInList(index[id].buckets, bucket);
    }
  }

  lemma NoPlaces(index: Index, bucket: string)
    ensures Places(index, bucket, {}) == {}
  {}

  lemma {:induction false} OnceInList(buckets: seq<string>, bucket: string)
    requires NoRepeats(buckets)
    ensures multiset(buckets)[bucket] == if bucket in buckets then 1 else 0
  {
    if buckets != [] {
      var n := |buckets| - 1;
      OnceInList(buckets[..n], bucket);
      assert buckets == buckets[..n] + [buckets[n]];
      assert buckets[n] !in buckets[..n];
    }
  }

  lemma BumpedNone(counts: map<string, nat>, buckets: seq<string>)
    ensures Bumped(counts, buckets[..0]) == counts
  {}

  lemma BumpedNext(counts: map<string, nat>, buckets: seq<string>, i: nat)
    requires i < |buckets|
    ensures var r := Bumped(counts, buckets[..i]);
      Bumped(counts, buckets[..i + 1]) == if buckets[i] in r then r[buckets[i] := r[buckets[i]] + 1] else r
  {
    assert buckets[..i + 1][..i] == buckets[..i];
  }

  /** The counts with one added for every listed bucket that is counted. */
  ghost function Bumped(counts: map<string, nat>, buckets: seq<string>): (r: map<string, nat>)
    ensures r.Keys == counts.Keys
  {
    if buckets == [] then counts
    else
      var n := |buckets| - 1;
      var r := Bumped(counts, buckets[..n]);
      if buckets[n] in r then r[buckets[n] := r[buckets[n]] + 1] else r
  }

  lemma {:induction false} BumpedAdds(counts: map<string, nat>, buckets: seq<string>)
    ensures forall b :: b in counts ==> Bumped(counts, buckets)[b] == counts[b] + multiset(buckets)[b]
  {
    if buckets != [] {
      var n := |buckets| - 1;
      BumpedAdds(counts, buckets[..n]);
      assert buckets == buckets[..n] + [buckets[n]];
    }
  }

  lemma HoldersWith(index: Index, bucket: string, id: string)
    requires id in index
    ensures id in Holders(index, bucket) <==> bucket in index[id].buckets
  {}

  lemma HoldersWithin(index: Index, bucket: string)
    ensures Holders(index, bucket) <= index.Keys
  {}

  /** How many of the ids done so far are in the set. */
  ghost function CountIn(s: set<string>, done: set<string>): nat {
    |s * done|
  }

  lemma CountMore(s: set<string>, done: set<string>, id: string)
    requires id !in done
    ensures CountIn(s, done + {id}) == CountIn(s, done) + if id in s then 1 else 0
  {
    if id in s {
      assert s * (done + {id}) == s * done + {id};
    } else {
      assert s * (done + {id}) == s * done;
    }
  }

  lemma CountEnds(s: set<string>, all: set<string>)
    requires s <= all
    ensures CountIn(s, {}) == 0 && CountIn(s, all) == |s|
  {
    assert s * {} == {} && s * all == s;
  }

  /** Recounting the buckets from the cards gives back every size in the summary. */
  lemma RecountMatchesSummary(q: Queue, cardCount: nat, cardIds: set<string>, index: Index, bucket: string)
    requires Acceptable(q, cardCount, cardIds) && Indexed(AllEntries(q), index) && bucket in BUCKETS
    ensures ListsBucketsOnce(index)
    ensures bucket in q.summary && |Holders(index, bucket)| == q.summary[bucket]
  {
    hide Consistent, Indexed, EntriesIn, ReadinessOk;
    IndexIsInverse(q, cardCount, cardIds, index);
    var entries := q.buckets[bucket];
    HoldersAreEntries(q, cardCount, cardIds, index, bucket);
    DistinctCount(entries);
  }

  lemma HoldersAreEntries(q: Queue, cardCount: nat, cardIds: set<string>, index: Index, bucket: string)
    requires Acceptable(q, cardCount, cardIds) && Indexed(AllEntries(q), index) && bucket in BUCKETS
    ensures Holders(index, bucket) == CardIds(q.buckets[bucket])
  {
    hide Consistent, Indexed, EntriesIn, ReadinessOk;
    IndexIsInverse(q, cardCount, cardIds, index);
    forall id
      ensures id in Holders(index, bucket) <==> id in CardIds(q.buckets[bucket])
    {
      assert id in CardIds(q.buckets[bucket]) <==> Holds(q, bucket, id);
    }
  }

  lemma {:induction false} DistinctCount(entries: seq<Entry>)
    requires DistinctIds(entries)
    ensures |CardIds(entries)| == |entries|
  {
    if entries != [] {
      var n := |entries| - 1;
      DistinctCount(entries[..n]);
      AddId(entries, n);
      assert entries[..n + 1] == entries;
    }
  }

  lemma {:induction false} FilterOnce(q: Queue, buckets: seq<string>, id: string)
    requires (forall b :: b in buckets ==> b in q.buckets) && NoRepeats(buckets)
    ensures NoRepeats(Filter(q, buckets, id))
  {
    hide Holds;
    if buckets != [] {
      var n := |buckets| - 1;
      FilterOnce(q, buckets[..n], id);
      FilterKeeps(q, buckets[..n], id);
      assert forall i :: 0 <= i < |Filter(q, buckets[..n], id)| ==>
        Filter(q, buckets[..n], id)[i] in Filter(q, buckets[..n], id);
    }
  }

  // ---------- readiness counts ----------

  datatype Field = Ready | RequiresWitnessReceipt | NeedsHuman | Unsupported

  function FieldOf(state: string): (f: Option<Field>)
    ensures f.Some? <==> state in STATES
    ensures f == Some(Ready) <==> state == "ready_for_agent"
  {
    if state == "ready_for_agent" then Some(Ready)
    else if state == "requires_witness_receipt" then Some(RequiresWitnessReceipt)
    else if state == "requires_human_review" then Some(NeedsHuman)
    else if state == "unsupported" then Some(Unsupported)
    else None
  }

  function InField(index: Index, field: Field): (ids: set<string>)
    ensures ids <= index.Keys
  {
    set id | id in index && FieldOf(index[id].state) == Some(field)
  }

  lemma InFieldWith(index: Index, field: Field, id: string)
    requires id in index
    ensures id in InField(index, field) <==> FieldOf(index[id].state) == Some(field)
  {}

  datatype CountError = UnknownReadinessState

  predicate KnownStates(index: Index) {
    forall id :: id in index ==> FieldOf(index[id].state).Some?
  }

  method UsefulnessReadinessCounts(index: Index) returns (r: Result<map<Field, nat>, CountError>)
    ensures r.Ok? <==> KnownStates(index)
    ensures r.Ok? ==> forall f :: f in r.value && r.value[f] == |InField(index, f)|
  {
    hide FieldOf, CountIn, InField;
    var counts: map<Field, nat> := map[Ready := 0, RequiresWitnessReceipt := 0, NeedsHuman := 0, Unsupported := 0];
    forall f: Field
      ensures f in counts && counts[f] == 0
      ensures CountIn(InField(index, f), {}) == 0 && CountIn(InField(index, f), index.Keys) == |InField(index, f)|
    {
      CountEnds(InField(index, f), index.Keys);
      match f {
        case Ready =>
        case RequiresWitnessReceipt =>
        case NeedsHuman =>
        case Unsupported =>
      }
    }
    var todo := index.Keys;
    ghost var done: set<string> := {};
    while todo != {}
      invariant forall f :: f in counts && counts[f] == CountIn(InField(index, f), done)
      invariant done !! todo && done + todo == index.Keys
      invariant forall id :: id in done ==> FieldOf(index[id].state).Some?
      decreases todo
    {
      var id :| id in todo;
      var field := FieldOf(index[id].state);
      if field.None? {
        return Err(UnknownReadinessState);
      }
      forall f
        ensures CountIn(InField(index, f), done + {id}) == CountIn(InField(index, f), done) + if f == field.value then 1 else 0
      {
        InFieldWith(index, f, id);
        CountMore(InField(index, f), done, id);
      }
      counts := counts[field.value := counts[field.value] + 1];
      todo := todo - {id};
      done := done + {id};
    }
    assert done == index.Keys;
    r := Ok(counts);
  }

  /** The four readiness counts add up to the number of cards, and the count of ready
    * cards is the count of agent-ready cards the review kit reports. */
  lemma ReadinessAddsUp(q: Queue, cardCount: nat, cardIds: set<string>, index: Index)
    requires Acceptable(q, cardCount, cardIds) && Indexed(AllEntries(q), index)
    ensures KnownStates(index)
    ensures |InField(index, Ready)| + |InField(index, RequiresWitnessReceipt)| + |InField(index, NeedsHuman)|
          + |InField(index, Unsupported)| == |cardIds|
    ensures InField(index, Ready) == set id | id in index && index[id].ready
  {
    hide Acceptable, Indexed, EntriesIn, FieldOf, Filter;
    IndexIsInverse(q, cardCount, cardIds, index);
    forall id | id in index
      ensures FieldOf(index[id].state).Some?
      ensures FieldOf(index[id].state) == Some(Ready) <==> index[id].ready
    {
      assert ProjectionOk(q, id, index[id]);
    }
    FieldsPartition(index);
  }

  lemma FieldsPartition(index: Index)
    requires KnownStates(index)
    ensures |InField(index, Ready)| + |InField(index, RequiresWitnessReceipt)| + |InField(index, NeedsHuman)|
          + |InField(index, Unsupported)| == |index|
  {
    hide FieldOf;
    var a, b := InField(index, Ready), InField(index, RequiresWitnessReceipt);
    var c, d := InField(index, NeedsHuman), InField(index, Unsupported);
    assert a !! b && (a + b) !! c && (a + b + c) !! d;
    forall id | id in index
      ensures id in a + b + c + d
    {
      match FieldOf(index[id].state).value {
        case Ready => assert id in a;
        case RequiresWitnessReceipt => assert id in b;
        case NeedsHuman => assert id in c;
        case Unsupported => assert id in d;
      }
    }
    assert a + b + c + d == index.Keys;
  }

  /** The cards whose projection has the readiness state. */
  function InState(index: Index, state: string): set<string> {
    set id | id in index && index[id].state == state
  }

  /** Each count is one of cards in one named state, and no other state is counted. */
  lemma FieldsMean(index: Index)
    ensures InField(index, Ready) == InState(index, "ready_for_agent")
    ensures InField(index, RequiresWitnessReceipt) == InState(index, "requires_witness_receipt")
    ensures InField(index, NeedsHuman) == InState(index, "requires_human_review")
    ensures InField(index, Unsupported) == InState(index, "unsupported")
    ensures KnownStates(index) <==> forall id :: id in index ==>
      index[id].state in ["ready_for_agent", "requires_witness_receipt", "requires_human_review", "unsupported"]
  {
    hide FieldOf;
    forall id | id in index
      ensures FieldOf(index[id].state) == Some(Ready) <==> index[id].state == "ready_for_agent"
      ensures FieldOf(index[id].state) == Some(RequiresWitnessReceipt) <==> index[id].state == "requires_witness_receipt"
      ensures FieldOf(index[id].state) == Some(NeedsHuman) <==> index[id].state == "requires_human_review"
      ensures FieldOf(index[id].state) == Some(Unsupported) <==> index[id].state == "unsupported"
      ensures FieldOf(index[id].state).Some? <==>
        index[id].state in ["ready_for_agent", "requires_witness_receipt", "requires_human_review", "unsupported"]
    {
      StateMeans(index[id].state);
    }
  }

  lemma StateMeans(state: string)
    ensures FieldOf(state) == Some(Ready) <==> state == "ready_for_agent"
    ensures FieldOf(state) == Some(RequiresWitnessReceipt) <==> state == "requires_witness_receipt"
    ensures FieldOf(state) == Some(NeedsHuman) <==> state == "requires_human_review"
    ensures FieldOf(state) == Some(Unsupported) <==> state == "unsupported"
    ensures FieldOf(state).Some? <==>
      state in ["ready_for_agent", "requires_witness_receipt", "requires_human_review", "unsupported"]
  {}

  lemma BucketsAre(b: string)
    ensures IsBucket(b) <==>
      || b == "repairable_by_guard" || b == "repairable_by_safety_docs" || b == "repairable_by_test"
      || b == "requires_witness_receipt" || b == "requires_human_review" || b == "do_not_auto_repair"
  {}

  /** An accepted queue has these six buckets and no other, and no card in the last two of them
    * is ready for an agent. */
  lemma AcceptedBuckets(q: Queue, cardCount: nat, cardIds: set<string>, b: string)
    requires Acceptable(q, cardCount, cardIds)
    ensures b in q.buckets <==>
      || b == "repairable_by_guard" || b == "repairable_by_safety_docs" || b == "repairable_by_test"
      || b == "requires_witness_receipt" || b == "requires_human_review" || b == "do_not_auto_repair"
    ensures (b == "requires_human_review" || b == "do_not_auto_repair") && b in q.buckets ==>
      forall i :: 0 <= i < |q.buckets[b]| ==> !q.buckets[b][i].ready && q.buckets[b][i].state != "ready_for_agent"
  {
    hide BUCKETS, STATES, Consistent;
    BucketsAre(b);
    assert b in BUCKETS ==> BucketListed(q, b) && BucketOk(q, b, cardIds);
  }
}
