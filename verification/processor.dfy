/** The older batch processor (src/utils/processor.ts): a `jobTitles` table
    with a `failed` status and a retry counter. A claim takes eligible
    records (pending, or failed fewer than five times), failed ones first;
    reconciliation completes the classified records and fails the rest,
    counting one more retry for each failure. */
module Processor {
  import opened Wrappers
  import opened AiTypes
  import Selection
  import Worker

  /** Line 12. */
  const MaxRetries: nat := 5

  datatype LegacyStatus = Pending | Processing | Completed | Failed

  /** One row of `jobTitles`. */
  datatype LegacyJob = LegacyJob(
    jobTitle: string, jobFunction: Option<string>, jobSeniority: Option<string>,
    confidence: Option<real>, standardizedJobTitle: Option<string>,
    status: LegacyStatus, retryCount: nat)

  type LegacyTable = map<nat, LegacyJob>

  /** Lines 24 and 102-106: pending, or failed with retries left. */
  predicate Eligible(j: LegacyJob) {
    j.status == Pending || (j.status == Failed && j.retryCount < MaxRetries)
  }

  function EligibleIds(store: LegacyTable): (r: set<nat>)
    ensures forall id :: id in r <==> id in store && Eligible(store[id])
  {
    set id | id in store && Eligible(store[id])
  }

  function RetryableIds(store: LegacyTable): (r: set<nat>)
    ensures forall id :: id in r <==> id in store && store[id].status == Failed && store[id].retryCount < MaxRetries
  {
    set id | id in store && store[id].status == Failed && store[id].retryCount < MaxRetries
  }

  function PendingIds(store: LegacyTable): (r: set<nat>)
    ensures forall id :: id in r <==> id in store && store[id].status == Pending
  {
    set id | id in store && store[id].status == Pending
  }

  /** The eligible records are the retryable failed ones and the pending
      ones, and no record is both. */
  lemma EligibleSplits(store: LegacyTable)
    ensures EligibleIds(store) == RetryableIds(store) + PendingIds(store)
    ensures RetryableIds(store) !! PendingIds(store)
    ensures |EligibleIds(store)| == |RetryableIds(store)| + |PendingIds(store)|
  {
  }

  /** Line 23: records left `processing` by an interrupted run go back to
      `pending`; nothing else changes, failed records keep their count. */
  function ResetStale(store: LegacyTable): (r: LegacyTable)
    ensures r.Keys == store.Keys
    ensures forall id :: id in r ==> r[id].status != Processing
    ensures forall id :: id in r && store[id].status == Processing ==> r[id] == store[id].(status := Pending)
    ensures forall id :: id in r && store[id].status != Processing ==> r[id] == store[id]
  {
    map id | id in store :: if store[id].status == Processing then store[id].(status := Pending) else store[id]
  }

  /** Lines 23-25: the reset store and the total the progress callback
      reports against. Interrupted records are counted as work again. */
  function StartRun(store: LegacyTable): (r: (LegacyTable, nat))
    ensures r.0 == ResetStale(store)
    ensures r.1 == |EligibleIds(r.0)|
    ensures EligibleIds(store) <= EligibleIds(r.0)
  {
    var store' := ResetStale(store);
    (store', |EligibleIds(store')|)
  }

  /** A claimed record together with its id, as `returning()` yields it. */
  datatype Claimed = Claimed(id: nat, row: LegacyJob)

  function ClaimedIds(batch: seq<Claimed>): (r: set<nat>)
    ensures forall id :: id in r <==> exists i :: 0 <= i < |batch| && batch[i].id == id
  {
    set i | 0 <= i < |batch| :: batch[i].id
  }

  function SetProcessing(store: LegacyTable, ids: set<nat>): (r: LegacyTable)
    ensures r.Keys == store.Keys
    ensures forall id :: id in r && id in ids ==> r[id] == store[id].(status := Processing)
    ensures forall id :: id in r && id !in ids ==> r[id] == store[id]
  {
    map id | id in store :: if id in ids then store[id].(status := Processing) else store[id]
  }

  /** The LIMIT left for pending records once failed ones are taken. */
  function RestLimit(limit: int, taken: nat): (r: int)
    requires limit < 0 || taken <= limit
    ensures limit < 0 <==> r < 0
    ensures limit >= 0 ==> r + taken == limit
  {
    if limit < 0 then -1 else limit - taken
  }

  lemma LimitCountSplits(limit: int, a: nat, b: nat)
    ensures Selection.LimitCount(limit, a) + Selection.LimitCount(RestLimit(limit, Selection.LimitCount(limit, a)), b)
            == Selection.LimitCount(limit, a + b)
  {
  }

  /** The claim (lines 99-117): up to `batchSize` eligible records, the
      retryable failed ones before the pending ones, all set to
      `processing` in one step. */
  method Claim(store: LegacyTable, batchSize: int) returns (batch: seq<Claimed>, store': LegacyTable)
    ensures |batch| == Selection.LimitCount(batchSize, |EligibleIds(store)|)
    ensures forall i :: 0 <= i < |batch| ==> batch[i].id in EligibleIds(store)
    ensures forall i, j :: 0 <= i < j < |batch| ==> batch[i].id != batch[j].id
    ensures (exists i :: 0 <= i < |batch| && batch[i].id in PendingIds(store))
            ==> RetryableIds(store) <= ClaimedIds(batch)
    ensures store' == SetProcessing(store, ClaimedIds(batch))
    ensures forall i :: 0 <= i < |batch| ==> batch[i].row == store'[batch[i].id]
  {
    var failedFirst := Selection.TakeSmallest(RetryableIds(store), batchSize);
    var pendingNext := Selection.TakeSmallest(PendingIds(store), RestLimit(batchSize, |failedFirst|));
    var ids := failedFirst + pendingNext;
    ClaimIdsSound(store, batchSize, failedFirst, pendingNext, ids);
    var marked := MarkClaimed(store, ids);
    batch, store' := marked.0, marked.1;
    DistinctIdsCarryOver(ids, batch);
  }

  /** The failed records taken first and the pending ones after them:
      as many ids as the LIMIT allows, all eligible, none repeated, and
      pending ones only once every retryable one is in. */
  lemma ClaimIdsSound(store: LegacyTable, batchSize: int, failedFirst: seq<nat>, pendingNext: seq<nat>, ids: seq<nat>)
    requires ids == failedFirst + pendingNext
    requires Selection.StrictlyIncreasing(failedFirst) && Selection.StrictlyIncreasing(pendingNext)
    requires forall i :: 0 <= i < |failedFirst| ==> failedFirst[i] in RetryableIds(store)
    requires forall i :: 0 <= i < |pendingNext| ==> pendingNext[i] in PendingIds(store)
    requires |failedFirst| == Selection.LimitCount(batchSize, |RetryableIds(store)|)
    requires |pendingNext| == Selection.LimitCount(RestLimit(batchSize, |failedFirst|), |PendingIds(store)|)
    ensures |ids| == Selection.LimitCount(batchSize, |EligibleIds(store)|)
    ensures forall i :: 0 <= i < |ids| ==> ids[i] in EligibleIds(store)
    ensures forall i, j :: 0 <= i < j < |ids| ==> ids[i] != ids[j]
    ensures (exists i :: 0 <= i < |ids| && ids[i] in PendingIds(store))
            ==> RetryableIds(store) <= set i | 0 <= i < |ids| :: ids[i]
  {
    EligibleSplits(store);
    LimitCountSplits(batchSize, |RetryableIds(store)|, |PendingIds(store)|);
    ClaimOrderSound(store, failedFirst, pendingNext);
    FailedBeforePending(store, batchSize, failedFirst, pendingNext);
  }

  lemma DistinctIdsCarryOver(ids: seq<nat>, batch: seq<Claimed>)
    requires |batch| == |ids| && forall i :: 0 <= i < |ids| ==> batch[i].id == ids[i]
    requires forall i, j :: 0 <= i < j < |ids| ==> ids[i] != ids[j]
    ensures forall i, j :: 0 <= i < j < |batch| ==> batch[i].id != batch[j].id
  {
  }

  /** The rows `returning()` yields once `ids` are set to `processing`. */
  function MarkClaimed(store: LegacyTable, ids: seq<nat>): (r: (seq<Claimed>, LegacyTable))
    requires forall i :: 0 <= i < |ids| ==> ids[i] in store
    ensures |r.0| == |ids| && forall i :: 0 <= i < |ids| ==> r.0[i].id == ids[i]
    ensures ClaimedIds(r.0) == set i | 0 <= i < |ids| :: ids[i]
    ensures r.1 == SetProcessing(store, ClaimedIds(r.0))
    ensures forall i :: 0 <= i < |ids| ==> r.0[i].row == r.1[ids[i]]
  {
    var chosen := set i | 0 <= i < |ids| :: ids[i];
    var store' := SetProcessing(store, chosen);
    var batch := seq(|ids|, i requires 0 <= i < |ids| => Claimed(ids[i], store'[ids[i]]));
    assert ClaimedIds(batch) == chosen by {
      forall id | id in chosen ensures id in ClaimedIds(batch) {
        var i :| 0 <= i < |ids| && ids[i] == id;
        assert batch[i].id == id;
      }
    }
    (batch, store')
  }

  /** Pending records are taken only once every retryable failed record
      is. */
  lemma FailedBeforePending(store: LegacyTable, batchSize: int, failedFirst: seq<nat>, pendingNext: seq<nat>)
    requires Selection.StrictlyIncreasing(failedFirst)
    requires forall i :: 0 <= i < |failedFirst| ==> failedFirst[i] in RetryableIds(store)
    requires |failedFirst| == Selection.LimitCount(batchSize, |RetryableIds(store)|)
    requires |pendingNext| == Selection.LimitCount(RestLimit(batchSize, |failedFirst|), |PendingIds(store)|)
    requires forall i :: 0 <= i < |pendingNext| ==> pendingNext[i] in PendingIds(store)
    ensures (exists i :: 0 <= i < |failedFirst + pendingNext| && (failedFirst + pendingNext)[i] in PendingIds(store))
            ==> RetryableIds(store) <= set i | 0 <= i < |failedFirst + pendingNext| :: (failedFirst + pendingNext)[i]
  {
    var ids := failedFirst + pendingNext;
    if exists i :: 0 <= i < |ids| && ids[i] in PendingIds(store) {
      var k :| 0 <= k < |ids| && ids[k] in PendingIds(store);
      assert k >= |failedFirst|;
      assert |failedFirst| == |RetryableIds(store)|;
      ExhaustiveTake(RetryableIds(store), failedFirst);
      forall id | id in RetryableIds(store) ensures id in set i | 0 <= i < |ids| :: ids[i] {
        var i :| 0 <= i < |failedFirst| && failedFirst[i] == id;
        assert ids[i] == id;
      }
    }
  }

  /** Failed records taken from the retryable ones, then pending ones:
      every id is eligible and none repeats. */
  lemma ClaimOrderSound(store: LegacyTable, failedFirst: seq<nat>, pendingNext: seq<nat>)
    requires Selection.StrictlyIncreasing(failedFirst) && Selection.StrictlyIncreasing(pendingNext)
    requires forall i :: 0 <= i < |failedFirst| ==> failedFirst[i] in RetryableIds(store)
    requires forall i :: 0 <= i < |pendingNext| ==> pendingNext[i] in PendingIds(store)
    ensures forall i :: 0 <= i < |failedFirst + pendingNext| ==> (failedFirst + pendingNext)[i] in EligibleIds(store)
    ensures forall i, j :: 0 <= i < j < |failedFirst + pendingNext| ==>
              (failedFirst + pendingNext)[i] != (failedFirst + pendingNext)[j]
  {
    var ids := failedFirst + pendingNext;
    forall i, j | 0 <= i < j < |ids| ensures ids[i] != ids[j] {
      if j < |failedFirst| {
        assert ids[i] < ids[j];
      } else if i >= |failedFirst| {
        assert ids[i] == pendingNext[i - |failedFirst|] && ids[j] == pendingNext[j - |failedFirst|];
      } else {
        assert ids[i] in RetryableIds(store) && ids[j] in PendingIds(store);
      }
    }
  }

  /** A strictly increasing selection of as many elements as the set has
      lists every one of them. */
  lemma ExhaustiveTake(s: set<nat>, xs: seq<nat>)
    requires Selection.StrictlyIncreasing(xs) && |xs| == |s|
    requires forall i :: 0 <= i < |xs| ==> xs[i] in s
    ensures forall id :: id in s ==> exists i :: 0 <= i < |xs| && xs[i] == id
  {
    var listed := set i | 0 <= i < |xs| :: xs[i];
    DistinctCardinality(xs);
    assert listed <= s;
    assert s == listed + (s - listed);
    assert |s - listed| == 0;
  }

  lemma {:induction false} DistinctCardinality(xs: seq<nat>)
    requires Selection.StrictlyIncreasing(xs)
    ensures |set i | 0 <= i < |xs| :: xs[i]| == |xs|
    decreases |xs|
  {
    if |xs| > 0 {
      var front := xs[..|xs| - 1];
      DistinctCardinality(front);
      var a := set i | 0 <= i < |front| :: front[i];
      var b := set i | 0 <= i < |xs| :: xs[i];
      assert b == a + {xs[|xs| - 1]};
      assert xs[|xs| - 1] !in a;
    }
  }

  /** A worker stops exactly when its claim comes back empty (lines
      119-122): when nothing is eligible, or the batch size is zero. */
  lemma WorkerStopsWhenNothingEligible(store: LegacyTable, batchSize: int)
    ensures Selection.LimitCount(batchSize, |EligibleIds(store)|) == 0
            <==> EligibleIds(store) == {} || batchSize == 0
  {
  }

  /** The running count of records handled (line 26). */
  datatype ProcessorState = ProcessorState(store: LegacyTable, processedCount: nat)

  /** A classified record (lines 62-68). */
  function CompleteJob(row: LegacyJob, c: JobClassification): (r: LegacyJob)
    ensures r.status == Completed && r.retryCount == row.retryCount && r.jobTitle == row.jobTitle
    ensures r.jobFunction == Some(c.jobFunction) && r.jobSeniority == Some(c.jobSeniority)
    ensures r.confidence == Some(c.confidence) && r.standardizedJobTitle == c.standardizedJobTitle
  {
    row.(jobFunction := Some(c.jobFunction), jobSeniority := Some(c.jobSeniority),
         confidence := Some(c.confidence), standardizedJobTitle := c.standardizedJobTitle,
         status := Completed)
  }

  /** A failed record (lines 73-76 and 81-84): one more retry counted
      against the stored count. */
  function FailJob(row: LegacyJob): (r: LegacyJob)
    ensures r.status == Failed && r.retryCount == row.retryCount + 1
    ensures r == row.(status := Failed, retryCount := r.retryCount)
  {
    row.(status := Failed, retryCount := row.retryCount + 1)
  }

  /** `processBatch` (lines 28-89). `outcome` is the classification list or
      the error the legacy classifier threw. An empty batch returns before
      the `finally` block and counts nothing. */
  function ProcessBatch(st: ProcessorState, batch: seq<Claimed>, outcome: Result<seq<JobClassification>, string>)
    : (r: ProcessorState)
    ensures r.store.Keys == st.store.Keys
    ensures |batch| == 0 ==> r == st
    ensures |batch| > 0 ==> r.processedCount == st.processedCount + |batch|
    ensures forall id :: id in st.store && id !in ClaimedIds(batch) ==> r.store[id] == st.store[id]
    ensures outcome.Err? ==>
              forall id :: id in st.store && id in ClaimedIds(batch) ==> r.store[id] == FailJob(st.store[id])
    ensures outcome.Ok? ==>
              var cmap := Worker.ClassificationMap(outcome.value);
              && (forall id :: id in st.store && id in ClaimedIds(batch) && id in cmap ==>
                    r.store[id] == CompleteJob(st.store[id], cmap[id]))
              && (forall id :: id in st.store && id in ClaimedIds(batch) && id !in cmap ==>
                    r.store[id] == FailJob(st.store[id]))
  {
    if |batch| == 0 then st
    else
      var ids := ClaimedIds(batch);
      var store' := match outcome
        case Err(_) =>
          map id | id in st.store :: if id in ids then FailJob(st.store[id]) else st.store[id]
        case Ok(cs) =>
          var cmap := Worker.ClassificationMap(cs);
          map id | id in st.store ::
            if id !in ids then st.store[id]
            else if id in cmap then CompleteJob(st.store[id], cmap[id])
            else FailJob(st.store[id]);
      ProcessorState(store', st.processedCount + |batch|)
  }

  /** Retry counts never go down, and go up by one exactly for the records
      of the batch that were not completed. */
  lemma RetryCountMonotone(st: ProcessorState, batch: seq<Claimed>, outcome: Result<seq<JobClassification>, string>)
    ensures forall id :: id in st.store ==>
              ProcessBatch(st, batch, outcome).store[id].retryCount >= st.store[id].retryCount
    ensures forall id :: id in st.store ==>
              ProcessBatch(st, batch, outcome).store[id].retryCount <= st.store[id].retryCount + 1
    ensures forall id :: (id in st.store && id in ClaimedIds(batch)
                          && ProcessBatch(st, batch, outcome).store[id].status == Failed) ==>
              ProcessBatch(st, batch, outcome).store[id].retryCount == st.store[id].retryCount + 1
  {
  }

  /** A record that has failed `MaxRetries` times is never claimed again,
      and reconciling other batches leaves it as it is. */
  lemma ExhaustedStaysExhausted(st: ProcessorState, batch: seq<Claimed>,
                                outcome: Result<seq<JobClassification>, string>, id: nat)
    requires id in st.store && st.store[id].status == Failed && st.store[id].retryCount >= MaxRetries
    requires forall i :: 0 <= i < |batch| ==> batch[i].id in EligibleIds(st.store)
    ensures id !in EligibleIds(st.store)
    ensures ProcessBatch(st, batch, outcome).store[id] == st.store[id]
  {
    assert id !in ClaimedIds(batch);
  }

  /** Every claimed record leaves `processing` when its batch is
      reconciled, whatever the classifier returned or threw. */
  lemma ReconcileSettlesBatch(st: ProcessorState, batch: seq<Claimed>, outcome: Result<seq<JobClassification>, string>)
    ensures forall i :: 0 <= i < |batch| && batch[i].id in st.store ==>
              ProcessBatch(st, batch, outcome).store[batch[i].id].status in {Completed, Failed}
  {
  }
}
